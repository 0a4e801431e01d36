/**
  Parsers that are fed one byte at a time until they are done, in any chunks.
 */
module ByteParsers {
  import opened Buckets

  /** A byte stored in a buffer. */
  function Put(text: seq<byte>, i: int, b: byte): (t: seq<byte>)
    ensures |t| == |text|
  {
    if 0 <= i < |text| then text[i := b] else text
  }

  function Concat(chunks: seq<seq<byte>>): seq<byte> {
    if chunks == [] then [] else chunks[0] + Concat(chunks[1..])
  }

  /** The consume loop: stops when done or out of bytes; also counts the bytes taken. */
  function Parse<P>(feed: (P, byte) -> P, done: P -> bool, p: P, bytes: seq<byte>): (r: (P, nat))
    ensures r.1 <= |bytes| && (r.1 < |bytes| ==> done(r.0))
    decreases |bytes|
  {
    if done(p) || bytes == [] then (p, 0)
    else var (q, n) := Parse(feed, done, feed(p, bytes[0]), bytes[1..]); (q, n + 1)
  }

  /** The bytes lead from p to q, and no state before the end is a final one. */
  ghost predicate Leads<P>(feed: (P, byte) -> P, done: P -> bool, p: P, xs: seq<byte>, q: P)
    decreases |xs|
  {
    if xs == [] then p == q else !done(p) && Leads(feed, done, feed(p, xs[0]), xs[1..], q)
  }

  lemma {:induction false} LeadsThrough<P>(feed: (P, byte) -> P, done: P -> bool, p: P, xs: seq<byte>, q: P,
                                           ys: seq<byte>, r: P)
    requires Leads(feed, done, p, xs, q) && Leads(feed, done, q, ys, r)
    ensures Leads(feed, done, p, xs + ys, r)
    decreases |xs|
  {
    if xs == [] {
      assert xs + ys == ys;
    } else {
      assert (xs + ys)[0] == xs[0] && (xs + ys)[1..] == xs[1..] + ys;
      LeadsThrough(feed, done, feed(p, xs[0]), xs[1..], q, ys, r);
    }
  }

  lemma LeadsOne<P>(feed: (P, byte) -> P, done: P -> bool, p: P, b: byte)
    requires !done(p)
    ensures Leads(feed, done, p, [b], feed(p, b))
  {
    assert [b][1..] == [];
  }

  lemma LeadsTwo<P>(feed: (P, byte) -> P, done: P -> bool, p: P, a: byte, b: byte)
    requires !done(p) && !done(feed(p, a))
    ensures Leads(feed, done, p, [a, b], feed(feed(p, a), b))
  {
    LeadsOne(feed, done, p, a);
    LeadsOne(feed, done, feed(p, a), b);
    LeadsThrough(feed, done, p, [a], feed(p, a), [b], feed(feed(p, a), b));
    assert [a] + [b] == [a, b];
  }

  /** Led to a final state, the parser stops there whatever follows: nothing is read beyond. */
  lemma {:induction false} LeadsParse<P>(feed: (P, byte) -> P, done: P -> bool, p: P, xs: seq<byte>, q: P,
                                         tail: seq<byte>)
    requires Leads(feed, done, p, xs, q) && done(q)
    ensures Parse(feed, done, p, xs + tail) == (q, |xs|)
    decreases |xs|
  {
    if xs == [] {
      assert xs + tail == tail;
    } else {
      assert (xs + tail)[0] == xs[0] && (xs + tail)[1..] == xs[1..] + tail;
      LeadsParse(feed, done, feed(p, xs[0]), xs[1..], q, tail);
    }
  }

  lemma {:induction false} LeadsFold<P>(feed: (P, byte) -> P, done: P -> bool, p: P, xs: seq<byte>, q: P)
    requires Leads(feed, done, p, xs, q)
    ensures Parse(feed, done, p, xs) == (q, |xs|)
    decreases |xs|
  {
    if xs != [] { LeadsFold(feed, done, feed(p, xs[0]), xs[1..], q); }
  }

  /** A proper prefix is taken whole and leaves the parser waiting. */
  lemma {:induction false} PrefixWaits<P>(feed: (P, byte) -> P, done: P -> bool, p: P, xs: seq<byte>, q: P, k: nat)
    requires Leads(feed, done, p, xs, q) && k < |xs|
    ensures var (r, n) := Parse(feed, done, p, xs[..k]); n == k && !done(r)
    decreases |xs|
  {
    if k > 0 {
      assert xs[..k][0] == xs[0] && xs[..k][1..] == xs[1..][..k - 1];
      PrefixWaits(feed, done, feed(p, xs[0]), xs[1..], q, k - 1);
    }
  }

  /** Splitting the input anywhere makes no difference. */
  lemma {:induction false} ParseSplit<P>(feed: (P, byte) -> P, done: P -> bool, p: P, xs: seq<byte>, ys: seq<byte>)
    ensures var (q, n) := Parse(feed, done, p, xs); var (r, k) := Parse(feed, done, q, ys);
            Parse(feed, done, p, xs + ys) == if n < |xs| then (q, n) else (r, n + k)
    decreases |xs|
  {
    if xs == [] {
      assert xs + ys == ys;
    } else if !done(p) {
      assert (xs + ys)[0] == xs[0] && (xs + ys)[1..] == xs[1..] + ys;
      ParseSplit(feed, done, feed(p, xs[0]), xs[1..], ys);
    }
  }

  /** After n bytes the parser is in state q, and what is left decides the rest. */
  ghost predicate Reaches<P>(feed: (P, byte) -> P, done: P -> bool, p: P, bytes: seq<byte>, n: nat, q: P)
    requires n <= |bytes|
  {
    var (r, k) := Parse(feed, done, q, bytes[n..]);
    Parse(feed, done, p, bytes) == (r, n + k)
  }

  lemma ReachesStart<P>(feed: (P, byte) -> P, done: P -> bool, p: P, bytes: seq<byte>)
    ensures Reaches(feed, done, p, bytes, 0, p)
  {
    assert bytes[0..] == bytes;
  }

  lemma ReachesNext<P>(feed: (P, byte) -> P, done: P -> bool, p: P, bytes: seq<byte>, n: nat, q: P)
    requires n < |bytes| && Reaches(feed, done, p, bytes, n, q) && !done(q)
    ensures Reaches(feed, done, p, bytes, n + 1, feed(q, bytes[n]))
  {
    assert bytes[n..][0] == bytes[n] && bytes[n..][1..] == bytes[n + 1..];
  }

  lemma ReachesEnd<P>(feed: (P, byte) -> P, done: P -> bool, p: P, bytes: seq<byte>, n: nat, q: P)
    requires n <= |bytes| && Reaches(feed, done, p, bytes, n, q) && (done(q) || n == |bytes|)
    ensures Parse(feed, done, p, bytes) == (q, n)
  {}
}
