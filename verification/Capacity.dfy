/**
  Capacities of the hash table: rounding a requested size up to a power of two with the
  shift-and-or trick, and the load limit of 0.77.
 */
module Capacity {
  import opened Probing

  const WORD := 0x1_0000_0000  // the source computes in 32-bit unsigned integers
  const MAX_BUCKETS := 0x8000_0000

  function Or(a: nat, b: nat): nat
    decreases a
  {
    if a == 0 then b
    else if b == 0 then a
    else 2 * Or(a / 2, b / 2) + if a % 2 == 1 || b % 2 == 1 then 1 else 0
  }

  function Shr(a: nat, k: nat): nat
    decreases k
  {
    if k == 0 then a else Shr(a / 2, k - 1)
  }

  /** Copies the top bit of a 32-bit word into every lower position. */
  function Smear(a: nat): nat {
    var a1 := Or(a, Shr(a, 1));
    var a2 := Or(a1, Shr(a1, 2));
    var a3 := Or(a2, Shr(a2, 4));
    var a4 := Or(a3, Shr(a3, 8));
    Or(a4, Shr(a4, 16))
  }

  /** kroundup32: subtract one, smear, add one. */
  function RoundUp32(x: nat): nat
    requires x < WORD
  {
    (Smear((x + WORD - 1) % WORD) + 1) % WORD
  }

  /** The double nearest to 0.77 is this many units of 1 / 2^53. */
  const HASH_UPPER := 6935543426150564
  const UNIT := 0x20_0000_0000_0000

  /** (khint_t)(n * 0.77 + 0.5) in units of 1 / 2^53, before the cast drops the fraction. */
  function Limit(n: nat): nat { n * HASH_UPPER + UNIT / 2 }

  function UpperBound(n: nat): nat { Limit(n) / UNIT }

  // ---------------------------------------------------------------- bits

  predicate Bit(a: nat, i: nat)
    decreases i
  {
    if i == 0 then a % 2 == 1 else Bit(a / 2, i - 1)
  }

  lemma {:induction false} ZeroHasNoBits(i: nat)
    ensures !Bit(0, i)
  {
    if i > 0 { ZeroHasNoBits(i - 1); }
  }

  lemma {:induction false} OrBit(a: nat, b: nat, i: nat)
    ensures Bit(Or(a, b), i) <==> Bit(a, i) || Bit(b, i)
    decreases i
  {
    ZeroHasNoBits(i);
    if a > 0 && b > 0 {
      assert Or(a, b) / 2 == Or(a / 2, b / 2);
      if i > 0 { OrBit(a / 2, b / 2, i - 1); }
    }
  }

  lemma {:induction false} ShrBit(a: nat, k: nat, i: nat)
    ensures Bit(Shr(a, k), i) <==> Bit(a, i + k)
    decreases k
  {
    if k > 0 { ShrBit(a / 2, k - 1, i); }
  }

  lemma {:induction false} HighBitsClear(y: nat, len: nat, i: nat)
    requires y < Pow2(len) && len <= i
    ensures !Bit(y, i)
    decreases len
  {
    if len == 0 { ZeroHasNoBits(i); } else { HighBitsClear(y / 2, len - 1, i - 1); }
  }

  lemma {:induction false} TopBitSet(y: nat, len: nat)
    requires 0 < len && Pow2(len - 1) <= y < Pow2(len)
    ensures Bit(y, len - 1)
    decreases len
  {
    if len > 1 { TopBitSet(y / 2, len - 1); }
  }

  lemma {:induction false} AllOnes(a: nat, len: nat)
    requires forall i: nat :: Bit(a, i) <==> i < len
    ensures a == Pow2(len) - 1
    decreases len
  {
    if len == 0 {
      if a > 0 {
        var l := BitLength(a);
        TopBitSet(a, l);
      }
    } else {
      forall i: nat
        ensures Bit(a / 2, i) <==> i < len - 1
      {
        assert Bit(a, i + 1) == Bit(a / 2, i);
      }
      AllOnes(a / 2, len - 1);
      assert Bit(a, 0);
    }
  }

  /** The number of significant bits. */
  ghost function BitLength(y: nat): (len: nat)
    ensures y < Pow2(len)
    ensures len > 0 ==> Pow2(len - 1) <= y
    ensures y == 0 <==> len == 0
  {
    if y == 0 then 0 else BitLength(y / 2) + 1
  }

  lemma {:induction false} Pow2Monotone(a: nat, b: nat)
    requires a <= b
    ensures Pow2(a) <= Pow2(b)
  {
    if a < b { Pow2Monotone(a, b - 1); }
  }

  lemma Pow2Order(a: nat, b: nat)
    requires Pow2(a) < Pow2(b)
    ensures a < b
  {
    if b <= a { Pow2Monotone(b, a); }
  }

  // ---------------------------------------------------------------- rounding up

  ghost predicate BitWithin(y: nat, lo: nat, hi: nat) {
    exists j: nat :: lo <= j < hi && Bit(y, j)
  }

  /** Bit i of a says whether y has a bit among the n positions from i upwards. */
  ghost predicate Smeared(y: nat, a: nat, n: nat) {
    forall i: nat :: Bit(a, i) <==> BitWithin(y, i, i + n)
  }

  lemma SmearMore(y: nat, a: nat, n: nat)
    requires Smeared(y, a, n)
    ensures Smeared(y, Or(a, Shr(a, n)), 2 * n)
  {
    forall i: nat
      ensures Bit(Or(a, Shr(a, n)), i) <==> BitWithin(y, i, i + 2 * n)
    {
      OrBit(a, Shr(a, n), i);
      ShrBit(a, n, i);
      assert Bit(a, i + n) <==> BitWithin(y, i + n, i + 2 * n);
    }
  }

  lemma SmearedIsOnes(y: nat, a: nat)
    requires y < Pow2(32) && Smeared(y, a, 32)
    ensures a == Pow2(BitLength(y)) - 1
  {
    var len := BitLength(y);
    if len > 32 { Pow2Monotone(32, len - 1); }
    forall i: nat
      ensures Bit(a, i) <==> i < len
    {
      if i < len {
        TopBitSet(y, len);
        assert BitWithin(y, i, i + 32);
      } else if Bit(a, i) {
        var j: nat :| i <= j < i + 32 && Bit(y, j);
        HighBitsClear(y, len, j);
      }
    }
    AllOnes(a, len);
  }

  lemma SmearCopiesTopBit(y: nat)
    requires y < Pow2(32)
    ensures Smear(y) == Pow2(BitLength(y)) - 1
  {
    assert Smeared(y, y, 1) by {
      forall i: nat ensures Bit(y, i) <==> BitWithin(y, i, i + 1) {}
    }
    SmearMore(y, y, 1);
    var a1 := Or(y, Shr(y, 1));
    SmearMore(y, a1, 2);
    var a2 := Or(a1, Shr(a1, 2));
    SmearMore(y, a2, 4);
    var a3 := Or(a2, Shr(a2, 4));
    SmearMore(y, a3, 8);
    var a4 := Or(a3, Shr(a3, 8));
    SmearMore(y, a4, 16);
    SmearedIsOnes(y, Smear(y));
  }

  lemma BitLengthBound(y: nat, k: nat)
    requires y < Pow2(k)
    ensures BitLength(y) <= k
  {
    if y > 0 { Pow2Order(BitLength(y) - 1, k); }
  }

  lemma BitLengthRounds(x: nat, k: nat)
    requires 1 <= x <= Pow2(k)
    ensures var r := Pow2(BitLength(x - 1)); PowerOfTwo(r) && x <= r < 2 * x && r <= Pow2(k)
  {
    BitLengthBound(x - 1, k);
    Pow2Monotone(BitLength(x - 1), k);
  }

  /** The rounded size is the least power of two not below the requested one. */
  lemma RoundUp32IsLeastPowerOfTwo(x: nat)
    requires 1 <= x <= MAX_BUCKETS
    ensures PowerOfTwo(RoundUp32(x)) && x <= RoundUp32(x) < 2 * x
  {
    Pow2At32();
    var k, w := 31, 32;
    BitLengthRounds(x, k);
    assert x - 1 < Pow2(w);
    var s := Smear(x - 1);
    assert s == Pow2(BitLength(x - 1)) - 1 by { SmearCopiesTopBit(x - 1); }
    RoundUp32Unwrapped(x, s);
  }

  lemma RoundUp32Unwrapped(x: nat, s: nat)
    requires 1 <= x < WORD && s == Smear(x - 1) && s + 1 < WORD
    ensures RoundUp32(x) == s + 1
  {
    hide Smear;
    WordWraps(x - 1);
    SmallModulo(s + 1);
  }

  /** Above 2^31 there is no power of two in a word: the result wraps to 0, as it does for 0 itself. */
  lemma RoundUp32Wraps(x: nat)
    requires x == 0 || MAX_BUCKETS < x < WORD
    ensures RoundUp32(x) == 0
  {
    hide Smear;
    if x > 0 { WordWraps(x - 1); }
    SmearedToWord((x + WORD - 1) % WORD);
  }

  /** What rounding up gives for every 32-bit request. */
  lemma RoundUp32Exactly(x: nat)
    requires x < WORD
    ensures 1 <= x <= MAX_BUCKETS ==> PowerOfTwo(RoundUp32(x)) && x <= RoundUp32(x) < 2 * x
    ensures x == 0 || x > MAX_BUCKETS ==> RoundUp32(x) == 0
  {
    hide RoundUp32;
    if 1 <= x <= MAX_BUCKETS { RoundUp32IsLeastPowerOfTwo(x); } else { RoundUp32Wraps(x); }
  }

  lemma SmearedToWord(y: nat)
    requires MAX_BUCKETS <= y < WORD
    ensures Smear(y) == WORD - 1
  {
    hide Smear;
    Pow2At32();
    var k, len := 32, BitLength(y);
    BitLengthBound(y, k);
    if len < k { Pow2Monotone(len, 31); }
    SmearCopiesTopBit(y);
  }

  lemma SmallModulo(n: nat)
    requires n < WORD
    ensures n % WORD == n
  {}

  lemma WordWraps(y: nat)
    requires y < WORD
    ensures (y + 1 + WORD - 1) % WORD == y
  {}

  lemma Pow2At32()
    ensures Pow2(31) == MAX_BUCKETS && Pow2(32) == WORD
  {
    assert Pow2(8) == 256;
    assert Pow2(16) == 65536;
    assert Pow2(24) == 16777216;
    assert Pow2(28) == 268435456;
  }

  lemma PowersOfTwoGap(a: nat, b: nat)
    requires PowerOfTwo(a) && PowerOfTwo(b) && a < b
    ensures 2 * a <= b
  {
    var i: nat :| a == Pow2(i);
    var j: nat :| b == Pow2(j);
    if j <= i { Pow2Monotone(j, i); }
    Pow2Monotone(i + 1, j);
  }

  lemma PowerBetween(n: nat, r: nat)
    requires PowerOfTwo(n) && PowerOfTwo(r) && n < 2 * r && r < 2 * n
    ensures r == n
  {
    if r < n { PowersOfTwoGap(r, n); } else if n < r { PowersOfTwoGap(n, r); }
  }

  /** What kh_put asks for: one bucket less keeps the capacity, one more doubles it. */
  lemma RoundUpNeighbours(n: nat)
    requires PowerOfTwo(n) && 4 <= n <= MAX_BUCKETS
    ensures RoundUp32(n - 1) == n
    ensures RoundUp32(n + 1) == if n < MAX_BUCKETS then 2 * n else 0
  {
    hide RoundUp32;
    var lo, hi := RoundUp32(n - 1), RoundUp32(n + 1);
    assert PowerOfTwo(lo) && n - 1 <= lo < 2 * (n - 1) by { RoundUp32IsLeastPowerOfTwo(n - 1); }
    PowerBetween(n, lo);
    if n < MAX_BUCKETS {
      assert PowerOfTwo(hi) && n + 1 <= hi < 2 * (n + 1) by { RoundUp32IsLeastPowerOfTwo(n + 1); }
      TwicePower(n);
      PowerBetween(2 * n, hi);
    } else {
      RoundUp32Wraps(n + 1);
    }
  }

  lemma TwicePower(n: nat)
    requires PowerOfTwo(n)
    ensures PowerOfTwo(2 * n)
  {
    var e: nat :| n == Pow2(e);
    assert 2 * n == Pow2(e + 1);
  }

  // ---------------------------------------------------------------- load limit

  function Scaled(m: nat, k: nat): nat { m * Pow2(k) }

  /** v units are a double: a number of 53 bits, scaled by a power of two. */
  ghost predicate IsDouble(v: nat) {
    exists m: nat, k: nat :: m < UNIT && v == Scaled(m, k)
  }

  lemma {:induction false} Pow2Sum(a: nat, b: nat)
    ensures Pow2(a + b) == Pow2(a) * Pow2(b)
    decreases a
  {
    if a > 0 { Pow2Sum(a - 1, b); }
  }

  lemma Distribute(a: nat, b: nat, n: nat)
    ensures (a + b) * n == n * a + b * n
  {}

  /** For every capacity neither the product nor the sum is rounded. */
  lemma LimitIsNotRounded(n: nat)
    requires PowerOfTwo(n) && 4 <= n <= MAX_BUCKETS
    ensures IsDouble(n * HASH_UPPER) && IsDouble(Limit(n))
  {
    hide Pow2;
    var k: nat :| n == Pow2(k);
    ExponentWithin(k);
    HalfUnit(k);
    var half := Pow2(52 - k);
    Distribute(HASH_UPPER, half, n);
    assert n * HASH_UPPER == Scaled(HASH_UPPER, k);
    assert Limit(n) == Scaled(HASH_UPPER + half, k);
  }

  lemma ExponentWithin(k: nat)
    requires 4 <= Pow2(k) <= MAX_BUCKETS
    ensures 2 <= k <= 31
  {
    Pow2At32();
    var hi := 32;
    if k >= hi { Pow2Monotone(hi, k); }
    assert Pow2(0) == 1 && Pow2(1) == 2;
  }

  lemma HalfUnit(k: nat)
    requires 2 <= k <= 31
    ensures Pow2(52 - k) * Pow2(k) == UNIT / 2 && Pow2(52 - k) <= UNIT / 8
  {
    hide Pow2;
    Pow2Sum(52 - k, k);
    Pow2At50();
    Pow2Monotone(52 - k, 50);
  }

  lemma Pow2At50()
    ensures Pow2(52) == UNIT / 2 && Pow2(50) == UNIT / 8
  {
    Pow2At32();
    var word, low := 32, 18;
    Pow2Sum(word, low);
    assert Pow2(8) == 256 && Pow2(16) == 65536 && Pow2(18) == 262144;
    assert Pow2(52) == 4 * Pow2(50);
  }

  /** The limit of a capacity is 0.77 of it, rounded, although 0.77 is not a double; it leaves at least one
      bucket empty. */
  lemma UpperBoundExact(n: nat)
    requires n % 4 == 0 && n <= MAX_BUCKETS
    ensures UpperBound(n) == (77 * n + 50) / 100
    ensures n >= 4 ==> 2 * UpperBound(n) >= n + 2 && UpperBound(n) < n && UpperBound(2 * n) >= n
  {
    LimitOfHundredths(n);
    LimitOfHundredths(2 * n);
  }

  lemma LimitOfHundredths(n: nat)
    requires n % 4 == 0 && n <= WORD
    ensures UpperBound(n) == (77 * n + 50) / 100
  {
    var q, r := (77 * n + 50) / 100, (77 * n + 50) % 100;
    RemainderBetween(n);
    var rest := Limit(n) - UNIT * q;
    assert 100 * rest == UNIT * r + 16 * n;
    assert 0 <= rest < UNIT;
    QuotientIs(Limit(n), q, rest);
  }

  lemma RemainderBetween(n: nat)
    requires n % 4 == 0
    ensures 2 <= (77 * n + 50) % 100 <= 98
  {
    var q, r := (77 * n + 50) / 100, (77 * n + 50) % 100;
    assert r == 4 * (77 * (n / 4) + 12 - 25 * q) + 2;
  }

  lemma QuotientIs(v: nat, q: nat, rest: nat)
    requires v == UNIT * q + rest && rest < UNIT
    ensures v / UNIT == q
  {}

  lemma CapacityIsDivisible(n: nat)
    requires PowerOfTwo(n) && n >= 4
    ensures n % 4 == 0
  {
    var k: nat :| n == Pow2(k);
    assert Pow2(0) == 1 && Pow2(1) == 2;
    if k >= 2 {
      assert Pow2(k) == 2 * Pow2(k - 1) && Pow2(k - 1) == 2 * Pow2(k - 2);
    }
  }
}
