/**
  The table-driven lexer, the tables that compare a string ignoring case, and what scanning with them finds.
 */
module StringMatcher {
  import opened Buckets

  const MAX_STATES := 50
  const TRANSITIONS_PER_STATE := 3
  const ANY: nat := 512

  datatype EventType = STRING_CMP_EQ | STRING_CMP_NEQ | STRING_CMP_MAYEQ

  function ToLower(c: byte): byte { if 65 <= c <= 90 then c + 32 else c }

  function ToUpper(c: byte): byte { if 97 <= c <= 122 then c - 32 else c }

  /** The two bytes that a pattern byte stands for. */
  predicate Same(c: byte, p: byte) { c == ToLower(p) || c == ToUpper(p) }

  /** Byte by byte the same, ignoring case. */
  predicate SameText(xs: seq<byte>, ps: seq<byte>) {
    |xs| == |ps| && forall i :: 0 <= i < |xs| ==> Same(xs[i], ps[i])
  }

  /** The text agrees with the start of a pattern. */
  predicate Agrees(xs: seq<byte>, ps: seq<byte>) {
    |xs| <= |ps| && forall i :: 0 <= i < |xs| ==> Same(xs[i], ps[i])
  }

  // ---------------------------------------------------------------- the automaton on values

  /** A string parser: state |pattern| is equality reached, |pattern| + 1 the sink. */
  datatype Matcher = Matcher(pattern: seq<byte>, state: nat) {
    predicate Valid() { |pattern| + 2 <= MAX_STATES && state < |pattern| + 2 }
  }

  function Start(pattern: seq<byte>): Matcher { Matcher(pattern, 0) }

  predicate Advances(m: Matcher, c: byte) { m.state < |m.pattern| && Same(c, m.pattern[m.state]) }

  /** parser_feed over a comparison table. */
  function Feed(m: Matcher, c: byte): (Matcher, EventType) {
    if !Advances(m, c) then (m.(state := |m.pattern| + 1), STRING_CMP_NEQ)
    else if m.state + 1 == |m.pattern| then (m.(state := |m.pattern|), STRING_CMP_EQ)
    else (m.(state := m.state + 1), STRING_CMP_MAYEQ)
  }

  /** After feeding xs from the start: the event of the last byte says whether xs is the pattern, may become
      it, or not. */
  function FeedAll(m: Matcher, xs: seq<byte>): Matcher
    decreases |xs|
  {
    if xs == [] then m else Feed(FeedAll(m, xs[..|xs| - 1]), xs[|xs| - 1]).0
  }

  /** What has been compared determines the state. */
  lemma {:induction false} StateMeansCompared(pattern: seq<byte>, xs: seq<byte>)
    ensures FeedAll(Start(pattern), xs) == Matcher(pattern, if Agrees(xs, pattern) then |xs| else |pattern| + 1)
    decreases |xs|
  {
    if xs != [] {
      var ys := xs[..|xs| - 1];
      StateMeansCompared(pattern, ys);
      assert Agrees(xs, pattern) <==> Agrees(ys, pattern) && |ys| < |pattern| && Same(xs[|ys|], pattern[|ys|]);
    }
  }

  /** The events of a comparison: equal exactly at the end of the pattern, not equal as soon as it cannot become so. */
  lemma EventMeansCompared(pattern: seq<byte>, xs: seq<byte>, c: byte)
    ensures var e := Feed(FeedAll(Start(pattern), xs), c).1;
            && (e.STRING_CMP_EQ? <==> SameText(xs + [c], pattern))
            && (e.STRING_CMP_NEQ? <==> !Agrees(xs + [c], pattern))
  {
    StateMeansCompared(pattern, xs);
    StateMeansCompared(pattern, xs + [c]);
    assert (xs + [c])[..|xs|] == xs;
  }

  /** A byte that stands for a pattern byte when case is ignored: itself, or the other case of an ASCII letter. */
  predicate OtherCase(x: byte, p: byte) {
    x == p || (65 <= p <= 90 && x == p + 32) || (97 <= p <= 122 && x == p - 32)
  }

  predicate EqualIgnoringCase(xs: seq<byte>, ps: seq<byte>) {
    |xs| == |ps| && forall i :: 0 <= i < |xs| ==> OtherCase(xs[i], ps[i])
  }

  lemma SameIsOtherCase(x: byte, p: byte)
    ensures Same(x, p) <==> OtherCase(x, p)
  {}

  lemma SameTextIgnoresCase(xs: seq<byte>, ps: seq<byte>)
    ensures SameText(xs, ps) <==> EqualIgnoringCase(xs, ps)
  {
    hide Same, OtherCase;
    if |xs| == |ps| {
      forall i | 0 <= i < |xs|
        ensures Same(xs[i], ps[i]) <==> OtherCase(xs[i], ps[i])
      {
        SameIsOtherCase(xs[i], ps[i]);
      }
    }
  }

  /** A comparison from the start answers, at the last byte of a text, that it is equal exactly when the text is the
      pattern byte by byte but for the case of ASCII letters; and that it is not exactly when it cannot become so. */
  lemma EqualExactlyWhen(pattern: seq<byte>, xs: seq<byte>)
    requires xs != []
    ensures var n := |xs| - 1; var e := Feed(FeedAll(Start(pattern), xs[..n]), xs[n]).1;
            && (e.STRING_CMP_EQ? <==> EqualIgnoringCase(xs, pattern))
            && (e.STRING_CMP_NEQ? <==> |xs| > |pattern| || !EqualIgnoringCase(xs, pattern[..|xs|]))
  {
    hide Feed, FeedAll, Same, OtherCase;
    var n := |xs| - 1;
    assert xs[..n] + [xs[n]] == xs;
    EventMeansCompared(pattern, xs[..n], xs[n]);
    SameTextIgnoresCase(xs, pattern);
    if |xs| <= |pattern| { SameTextIgnoresCase(xs, pattern[..|xs|]); }
  }

  // ---------------------------------------------------------------- scanning

  /** A comparison that is reset whenever it fails; the failing byte is not compared again. */
  function Scan(m: Matcher, c: byte): (Matcher, bool) {
    var (q, e) := Feed(m, c);
    (if e.STRING_CMP_NEQ? then Start(m.pattern) else q, e.STRING_CMP_EQ?)
  }

  /** Number of bytes taken up to and with the first match; |xs| + 1 when there is none. */
  function FirstMatch(m: Matcher, xs: seq<byte>): (k: nat)
    ensures 1 <= k <= |xs| + 1
    decreases |xs|
  {
    if xs == [] then 1 else if Scan(m, xs[0]).1 then 1 else 1 + FirstMatch(Scan(m, xs[0]).0, xs[1..])
  }

  /** The last k bytes are the first k of the pattern. */
  predicate EndsWithFirst(seen: seq<byte>, k: nat, pattern: seq<byte>) {
    && k <= |seen| && k <= |pattern|
    && forall i :: 0 <= i < k ==> Same(seen[|seen| - k + i], pattern[i])
  }

  /** The scanner's state is the number of last bytes that match the start of the pattern. */
  predicate Tracks(m: Matcher, seen: seq<byte>) {
    m.state < |m.pattern| && EndsWithFirst(seen, m.state, m.pattern)
  }

  predicate EndsWith(seen: seq<byte>, pattern: seq<byte>) { EndsWithFirst(seen, |pattern|, pattern) }

  /** A match means that the last bytes are the pattern, ignoring case. */
  lemma ScanStep(m: Matcher, seen: seq<byte>, c: byte)
    requires Tracks(m, seen)
    ensures var (q, found) := Scan(m, c);
            && (found ==> EndsWith(seen + [c], m.pattern))
            && (!found ==> Tracks(q, seen + [c]) && q.pattern == m.pattern)
  {
    if Advances(m, c) { assert EndsWithFirst(seen + [c], m.state + 1, m.pattern); }
  }

  /** Foreign to a pattern: none of its bytes. */
  predicate Foreign(c: byte, pattern: seq<byte>) { forall i :: 0 <= i < |pattern| ==> !Same(c, pattern[i]) }

  /** Soundness: no match without the pattern ending there. */
  lemma {:induction false} MatchIsOccurrence(m: Matcher, seen: seq<byte>, xs: seq<byte>)
    requires Tracks(m, seen)
    ensures var k := FirstMatch(m, xs);
            k <= |xs| ==> EndsWith(seen + xs[..k], m.pattern)
    decreases |xs|
  {
    hide Tracks, EndsWithFirst, Scan;
    if xs != [] {
      ScanStep(m, seen, xs[0]);
      var (q, found) := Scan(m, xs[0]);
      assert seen + xs[..1] == seen + [xs[0]];
      if !found {
        MatchIsOccurrence(q, seen + [xs[0]], xs[1..]);
        var k := FirstMatch(q, xs[1..]);
        if k < |xs| { assert seen + [xs[0]] + xs[1..][..k] == seen + xs[..k + 1]; }
      }
    }
  }

  /** From a fresh start the pattern itself is found at its last byte. */
  lemma {:induction false} FreshStartFinds(m: Matcher, xs: seq<byte>, rest: seq<byte>)
    requires m.state < |m.pattern| && SameText(xs, m.pattern[m.state..])
    ensures FirstMatch(m, xs + rest) == |xs|
    decreases |xs|
  {
    assert Same(xs[0], m.pattern[m.state..][0]);
    assert (xs + rest)[0] == xs[0] && (xs + rest)[1..] == xs[1..] + rest;
    var (q, found) := Scan(m, xs[0]);
    if !found {
      assert m.pattern[q.state..] == m.pattern[m.state..][1..];
      FreshStartFinds(q, xs[1..], rest);
    }
  }

  /** The scanner after some bytes. */
  function ScanAll(m: Matcher, xs: seq<byte>): Matcher
    decreases |xs|
  {
    if xs == [] then m else ScanAll(Scan(m, xs[0]).0, xs[1..])
  }

  lemma {:induction false} ScansOn(m: Matcher, xs: seq<byte>, zs: seq<byte>)
    requires m.state < |m.pattern| && FirstMatch(m, xs) == |xs| + 1
    ensures ScanAll(m, xs).pattern == m.pattern && ScanAll(m, xs).state < |m.pattern|
    ensures FirstMatch(m, xs + zs) == |xs| + FirstMatch(ScanAll(m, xs), zs)
    decreases |xs|
  {
    if xs == [] {
      assert xs + zs == zs;
    } else {
      assert (xs + zs)[0] == xs[0] && (xs + zs)[1..] == xs[1..] + zs;
      ScansOn(Scan(m, xs[0]).0, xs[1..], zs);
    }
  }

  lemma {:induction false} ScanAllSplit(m: Matcher, xs: seq<byte>, ys: seq<byte>)
    ensures ScanAll(m, xs + ys) == ScanAll(ScanAll(m, xs), ys)
    decreases |xs|
  {
    if xs == [] {
      assert xs + ys == ys;
    } else {
      assert (xs + ys)[0] == xs[0] && (xs + ys)[1..] == xs[1..] + ys;
      ScanAllSplit(Scan(m, xs[0]).0, xs[1..], ys);
    }
  }

  /** One byte more for a scanner that has found nothing yet. */
  lemma ScansNext(m: Matcher, xs: seq<byte>, c: byte)
    requires m.state < |m.pattern| && FirstMatch(m, xs) == |xs| + 1
    ensures var (q, found) := Scan(ScanAll(m, xs), c);
            ScanAll(m, xs + [c]) == q && FirstMatch(m, xs + [c]) == |xs| + if found then 1 else 2
  {
    ScansOn(m, xs, [c]);
    ScanAllSplit(m, xs, [c]);
    assert [c][1..] == [];
  }

  /** A match either completes what the scanner had of the pattern, or comes after a restart and a whole
      pattern more. */
  lemma {:induction false} MatchTakes(m: Matcher, xs: seq<byte>)
    requires m.state < |m.pattern| && FirstMatch(m, xs) <= |xs|
    ensures FirstMatch(m, xs) == |m.pattern| - m.state || FirstMatch(m, xs) > |m.pattern|
    decreases |xs|
  {
    if !Scan(m, xs[0]).1 {
      MatchTakes(Scan(m, xs[0]).0, xs[1..]);
    }
  }

  /** With nothing found before it, an occurrence of the pattern is found at its last byte exactly when the
      scanner stands at its start as the occurrence begins. */
  lemma OccurrenceFoundExactlyWhen(m: Matcher, xs: seq<byte>, ys: seq<byte>, rest: seq<byte>)
    requires m.state < |m.pattern| && FirstMatch(m, xs) == |xs| + 1 && SameText(ys, m.pattern)
    ensures FirstMatch(m, xs + (ys + rest)) == |xs| + |ys| <==> ScanAll(m, xs).state == 0
  {
    ScansOn(m, xs, ys + rest);
    var q := ScanAll(m, xs);
    if q.state == 0 {
      assert m.pattern[0..] == m.pattern;
      FreshStartFinds(q, ys, rest);
    } else if FirstMatch(q, ys + rest) <= |ys + rest| {
      MatchTakes(q, ys + rest);
    }
  }

  /** Completeness: an occurrence right after a foreign byte is found at its last byte, unless one was found before. */
  lemma {:induction false} OccurrenceAfterForeignIsFound(m: Matcher, xs: seq<byte>, c: byte, ys: seq<byte>,
                                                         rest: seq<byte>)
    requires m.state < |m.pattern| && Foreign(c, m.pattern) && SameText(ys, m.pattern)
    ensures FirstMatch(m, xs + [c] + ys + rest) <= |xs| + 1 + |ys|
    ensures FirstMatch(m, xs + [c] + ys + rest) <= |xs| || FirstMatch(m, xs + [c] + ys + rest) == |xs| + 1 + |ys|
    decreases |xs|
  {
    var all := xs + [c] + ys + rest;
    var (q, found) := Scan(m, all[0]);
    if xs == [] {
      assert all[0] == c && all[1..] == ys + rest;
      assert m.pattern[0..] == m.pattern;
      FreshStartFinds(q, ys, rest);
    } else if !found {
      assert all[1..] == xs[1..] + [c] + ys + rest;
      OccurrenceAfterForeignIsFound(q, xs[1..], c, ys, rest);
    }
  }

  const CRLFCRLF: seq<byte> := [13, 10, 13, 10]

  /** Completeness in general fails: a carriage return in front of CRLFCRLF hides it. */
  lemma OccurrenceCanBeMissed()
    ensures EndsWith([13, 13, 10, 13, 10], CRLFCRLF)
    ensures FirstMatch(Start(CRLFCRLF), [13, 13, 10, 13, 10]) == 6
  {
    var m := Start(CRLFCRLF);
    var xs: seq<byte> := [13, 13, 10, 13, 10];
    assert xs[1..] == CRLFCRLF;
    assert xs[1..] == [13, 10, 13, 10] && [13, 10, 13, 10][1..] == [10, 13, 10];
    assert FirstMatch(m, [10, 13, 10]) == 4 by {
      assert [10, 13, 10][1..] == [13, 10] && [13, 10][1..] == [10] && [10][1..] == [];
    }
    assert Scan(m, 13) == (Matcher(CRLFCRLF, 1), false) && Scan(Matcher(CRLFCRLF, 1), 13) == (m, false);
  }

  // ---------------------------------------------------------------- tables

  datatype Act = NoAct | MayEq | Eq | Neq

  datatype Transition = Transition(when_: nat, dest: nat, act: Act)

  const UNUSED := Transition(0, 0, NoAct)

  /** The transitions of a state of a comparison table. */
  function Row(pattern: seq<byte>, i: nat): seq<Transition> {
    if i < |pattern| then
      var act := if i + 1 == |pattern| then Eq else MayEq;
      [Transition(ToLower(pattern[i]), i + 1, act), Transition(ToUpper(pattern[i]), i + 1, act),
       Transition(ANY, |pattern| + 1, Neq)]
    else [Transition(ANY, |pattern| + 1, Neq)]
  }

  ghost predicate HoldsRow(states: array2<Transition>, statesN: array<nat>, i: nat, row: seq<Transition>)
    requires states.Length0 == statesN.Length == MAX_STATES && states.Length1 == TRANSITIONS_PER_STATE && i < MAX_STATES
    requires |row| <= TRANSITIONS_PER_STATE
    reads states, statesN
  {
    statesN[i] == |row| && forall k :: 0 <= k < |row| ==> states[i, k] == row[k]
  }

  /** parser_utils_strcmpi: the comparison table of a pattern. */
  method StrCmpI(pattern: seq<byte>) returns (states: array2<Transition>, statesN: array<nat>)
    requires |pattern| + 2 <= MAX_STATES
    ensures fresh(states) && fresh(statesN)
    ensures states.Length0 == statesN.Length == MAX_STATES && states.Length1 == TRANSITIONS_PER_STATE
    ensures forall i :: 0 <= i < |pattern| + 2 ==> HoldsRow(states, statesN, i, Row(pattern, i))
    ensures forall i, b: byte :: 0 <= i < |pattern| ==>
              (states[i, 0].when_ == b || states[i, 1].when_ == b <==> OtherCase(b, pattern[i]))
  {
    var n := |pattern|;
    var neq := n + 1;
    states := new Transition[MAX_STATES, TRANSITIONS_PER_STATE]((_, _) => UNUSED);
    statesN := new nat[MAX_STATES](_ => 0);
    for i := 0 to n
      invariant forall j :: 0 <= j < i ==> HoldsRow(states, statesN, j, Row(pattern, j))
    {
      var dest := if i + 1 == n then n else i + 1;
      states[i, 0] := Transition(ToLower(pattern[i]), dest, if i + 1 == n then Eq else MayEq);
      states[i, 1] := Transition(ToUpper(pattern[i]), dest, if i + 1 == n then Eq else MayEq);
      states[i, 2] := Transition(ANY, neq, Neq);
      statesN[i] := 3;
    }
    states[n, 0] := Transition(ANY, neq, Neq);
    statesN[n] := 1;
    states[n + 1, 0] := Transition(ANY, neq, Neq);
    statesN[n + 1] := 1;
    forall i, b: byte | 0 <= i < n
      ensures states[i, 0].when_ == b || states[i, 1].when_ == b <==> OtherCase(b, pattern[i])
    {
      assert HoldsRow(states, statesN, i, Row(pattern, i)) && Row(pattern, i)[0].when_ == ToLower(pattern[i]);
      SameIsOtherCase(b, pattern[i]);
    }
  }

  class StringParser {
    ghost const pattern: seq<byte>
    const states: array2<Transition>
    const statesN: array<nat>
    var state: nat
    var event: EventType

    ghost predicate Valid()
      reads this, states, statesN
    {
      && states.Length0 == statesN.Length == MAX_STATES && states.Length1 == TRANSITIONS_PER_STATE
      && Matcher(pattern, state).Valid()
      && forall i :: 0 <= i < |pattern| + 2 ==> HoldsRow(states, statesN, i, Row(pattern, i))
    }

    ghost function View(): Matcher
      reads this
    {
      Matcher(pattern, state)
    }

    /** parser_utils_strcmpi and parser_init; the definition is the parser's own. */
    constructor (text: seq<byte>)
      requires |text| + 2 <= MAX_STATES
      ensures Valid() && View() == Start(text) && fresh(states) && fresh(statesN)
    {
      var table, counts := StrCmpI(text);
      pattern, states, statesN := text, table, counts;
      state, event := 0, STRING_CMP_MAYEQ;
    }

    /** parser_reset */
    method Reset()
      requires Valid()
      modifies this
      ensures Valid() && View() == Start(old(View()).pattern)
    {
      state := 0;
    }

    /** parser_feed: the first transition that applies.  No byte has a class here, so class conditions never do. */
    method FeedByte(c: byte)
      requires Valid()
      modifies this
      ensures Valid() && (View(), event) == Feed(old(View()), c)
    {
      var n := statesN[state];
      ghost var row := Row(pattern, state);
      assert HoldsRow(states, statesN, state, row);
      assert n == |row| && row[n - 1].when_ == ANY;
      for i := 0 to n
        invariant state == old(state)
        invariant forall k :: 0 <= k < i ==> row[k].when_ <= 0xFF && row[k].when_ != c
      {
        var t := states[state, i];
        assert t == row[i];
        var matched := if t.when_ <= 0xFF then c == t.when_ else t.when_ == ANY;
        if matched {
          event := match t.act case Eq => STRING_CMP_EQ case Neq => STRING_CMP_NEQ case _ => STRING_CMP_MAYEQ;
          state := t.dest;
          assert i < 2 || (row[0].when_ != c && row[1].when_ != c);
          assert (View(), event) == Feed(old(View()), c);
          return;
        }
      }
    }
  }
}
