/**
  The packed bucket flags of the hash table: two bits a bucket, sixteen buckets a 32-bit word.
  Bit 1 of a pair says "never used", bit 0 says "deleted"; a live bucket has both clear.
 */
module Flags {

  const ALL_EMPTY: bv32 := 0xaaaa_aaaa

  /** How far the pair of bucket i is shifted within its word. */
  function Shift(i: nat): bv5 {
    ((i % 16) as bv5) << 1
  }

  predicate EmptyBit(w: bv32, s: bv5) { (w >> s) & 2 != 0 }

  predicate DelBit(w: bv32, s: bv5) { (w >> s) & 1 != 0 }

  predicate EitherBit(w: bv32, s: bv5) { (w >> s) & 3 != 0 }

  function WithDel(w: bv32, s: bv5): bv32 { w | (1 << s) }

  function WithoutEmpty(w: bv32, s: bv5): bv32 { w & !(2 << s) }

  function WithoutBoth(w: bv32, s: bv5): bv32 { w & !(3 << s) }

  predicate IsEmpty(f: array<bv32>, i: nat)
    requires i / 16 < f.Length
    reads f
  {
    EmptyBit(f[i / 16], Shift(i))
  }

  predicate IsDel(f: array<bv32>, i: nat)
    requires i / 16 < f.Length
    reads f
  {
    DelBit(f[i / 16], Shift(i))
  }

  predicate IsEither(f: array<bv32>, i: nat)
    requires i / 16 < f.Length
    reads f
    ensures IsEither(f, i) <==> IsEmpty(f, i) || IsDel(f, i)
  {
    EitherIsEmptyOrDel(f[i / 16], Shift(i));
    EitherBit(f[i / 16], Shift(i))
  }

  lemma EitherIsEmptyOrDel(w: bv32, s: bv5)
    ensures EitherBit(w, s) <==> EmptyBit(w, s) || DelBit(w, s)
  {}

  /** __ac_fsize: how many words m buckets need. */
  function WordsFor(m: nat): nat {
    if m < 16 then 1 else m / 16
  }

  method SetIsDelTrue(f: array<bv32>, i: nat)
    requires i / 16 < f.Length
    modifies f
    ensures IsDel(f, i) && IsEmpty(f, i) == old(IsEmpty(f, i))
    ensures forall j: nat | j / 16 < f.Length && j != i ::
              IsDel(f, j) == old(IsDel(f, j)) && IsEmpty(f, j) == old(IsEmpty(f, j))
  {
    hide Shift, EmptyBit, DelBit, EitherBit, WithDel, WithoutEmpty, WithoutBoth;
    ghost var w := f[i / 16];
    f[i / 16] := WithDel(f[i / 16], Shift(i));
    forall j: nat | j / 16 < f.Length
      ensures IsDel(f, j) == (j == i || old(IsDel(f, j))) && IsEmpty(f, j) == old(IsEmpty(f, j))
    {
      ShiftFacts(i, j);
      if j / 16 == i / 16 { WordSetDel(w, Shift(i), Shift(j)); }
    }
  }

  method SetIsEmptyFalse(f: array<bv32>, i: nat)
    requires i / 16 < f.Length
    modifies f
    ensures !IsEmpty(f, i) && IsDel(f, i) == old(IsDel(f, i))
    ensures forall j: nat | j / 16 < f.Length && j != i ::
              IsDel(f, j) == old(IsDel(f, j)) && IsEmpty(f, j) == old(IsEmpty(f, j))
  {
    hide Shift, EmptyBit, DelBit, EitherBit, WithDel, WithoutEmpty, WithoutBoth;
    ghost var w := f[i / 16];
    f[i / 16] := WithoutEmpty(f[i / 16], Shift(i));
    forall j: nat | j / 16 < f.Length
      ensures IsDel(f, j) == old(IsDel(f, j)) && IsEmpty(f, j) == (j != i && old(IsEmpty(f, j)))
    {
      ShiftFacts(i, j);
      if j / 16 == i / 16 { WordClearEmpty(w, Shift(i), Shift(j)); }
    }
  }

  method SetIsBothFalse(f: array<bv32>, i: nat)
    requires i / 16 < f.Length
    modifies f
    ensures !IsEmpty(f, i) && !IsDel(f, i)
    ensures forall j: nat | j / 16 < f.Length && j != i ::
              IsDel(f, j) == old(IsDel(f, j)) && IsEmpty(f, j) == old(IsEmpty(f, j))
  {
    hide Shift, EmptyBit, DelBit, EitherBit, WithDel, WithoutEmpty, WithoutBoth;
    ghost var w := f[i / 16];
    f[i / 16] := WithoutBoth(f[i / 16], Shift(i));
    forall j: nat | j / 16 < f.Length
      ensures IsDel(f, j) == (j != i && old(IsDel(f, j))) && IsEmpty(f, j) == (j != i && old(IsEmpty(f, j)))
    {
      ShiftFacts(i, j);
      if j / 16 == i / 16 { WordClearBoth(w, Shift(i), Shift(j)); }
    }
  }

  /** malloc and memset(flags, 0xaa): every bucket starts out empty. */
  method NewFlags(m: nat) returns (f: array<bv32>)
    ensures fresh(f) && f.Length == WordsFor(m)
    ensures forall j: nat | j / 16 < f.Length :: IsEmpty(f, j) && !IsDel(f, j)
  {
    f := new bv32[WordsFor(m)](_ => ALL_EMPTY);
    forall j: nat | j / 16 < f.Length
      ensures IsEmpty(f, j) && !IsDel(f, j)
    {
      ShiftFacts(j, j);
      WordAllEmpty(Shift(j));
    }
  }

  // ---------------------------------------------------------------- one word

  predicate PairShift(s: bv5) {
    s <= 30 && s & 1 == 0
  }

  lemma ShiftFacts(i: nat, j: nat)
    ensures PairShift(Shift(i)) && PairShift(Shift(j))
    ensures Shift(i) == Shift(j) ==> i % 16 == j % 16
  {
    ShiftInverse(i % 16);
    ShiftInverse(j % 16);
  }

  function Unshift(s: bv5): nat {
    if s == 0 then 0 else if s == 2 then 1 else if s == 4 then 2 else if s == 6 then 3
    else if s == 8 then 4 else if s == 10 then 5 else if s == 12 then 6 else if s == 14 then 7
    else if s == 16 then 8 else if s == 18 then 9 else if s == 20 then 10 else if s == 22 then 11
    else if s == 24 then 12 else if s == 26 then 13 else if s == 28 then 14 else 15
  }

  lemma ShiftInverse(k: nat)
    requires k < 16
    ensures PairShift((k as bv5) << 1) && Unshift((k as bv5) << 1) == k
  {
    if k < 8 {
      if k == 0 {} else if k == 1 {} else if k == 2 {} else if k == 3 {} else if k == 4 {}
      else if k == 5 {} else if k == 6 {} else {}
    } else {
      if k == 8 {} else if k == 9 {} else if k == 10 {} else if k == 11 {} else if k == 12 {}
      else if k == 13 {} else if k == 14 {} else {}
    }
  }

  lemma WordSetDel(w: bv32, s: bv5, t: bv5)
    requires PairShift(s) && PairShift(t)
    ensures EmptyBit(WithDel(w, s), t) == EmptyBit(w, t)
    ensures DelBit(WithDel(w, s), t) == (s == t || DelBit(w, t))
  {}

  lemma WordClearEmpty(w: bv32, s: bv5, t: bv5)
    requires PairShift(s) && PairShift(t)
    ensures EmptyBit(WithoutEmpty(w, s), t) == (s != t && EmptyBit(w, t))
    ensures DelBit(WithoutEmpty(w, s), t) == DelBit(w, t)
  {}

  lemma WordClearBoth(w: bv32, s: bv5, t: bv5)
    requires PairShift(s) && PairShift(t)
    ensures EmptyBit(WithoutBoth(w, s), t) == (s != t && EmptyBit(w, t))
    ensures DelBit(WithoutBoth(w, s), t) == (s != t && DelBit(w, t))
  {}

  lemma WordAllEmpty(s: bv5)
    requires PairShift(s)
    ensures EmptyBit(ALL_EMPTY, s) && !DelBit(ALL_EMPTY, s)
  {}
}
