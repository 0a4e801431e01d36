/**
  The probe sequence of the hash table: from a start k the search visits k, k+1, k+1+2, k+1+2+3, ...
  modulo a power-of-two capacity.  The point of this module is that the first m probes of a table
  of m buckets visit every bucket exactly once, whatever the start.
 */
module Probing {

  function Pow2(e: nat): (m: nat)
    ensures m > 0
  {
    if e == 0 then 1 else 2 * Pow2(e - 1)
  }

  ghost predicate PowerOfTwo(m: nat) {
    exists e: nat :: m == Pow2(e)
  }

  /** The accumulated displacement after i steps. */
  function Tri(i: nat): nat {
    if i == 0 then 0 else Tri(i - 1) + i
  }

  /** The bucket that probe number i looks at, for a key whose hash is k. */
  function Probe(k: nat, i: nat, m: nat): (b: nat)
    requires m > 0
    ensures b < m
  {
    (k + Tri(i)) % m
  }

  // ---------------------------------------------------------------- arithmetic

  /** Quotient and remainder are unique. */
  lemma RemainderUnique(x: int, q: int, r: int, m: nat)
    requires m > 0 && x == q * m + r && 0 <= r < m
    ensures x % m == r && x / m == q
  {
    var d := x / m - q;
    assert d * m == r - x % m by {
      assert x == (x / m) * m + x % m;
      assert d * m == (x / m) * m - q * m;
    }
    SmallMultiple(d, m);
  }

  lemma MultipleIsLarge(d: int, m: int)
    requires d >= 1 && m >= 1
    ensures d * m >= m
  {
    assert d * m == (d - 1) * m + m;
  }

  lemma SmallMultiple(d: int, m: int)
    requires m >= 1 && -m < d * m < m
    ensures d == 0
  {
    if d >= 1 {
      MultipleIsLarge(d, m);
    } else if d <= -1 {
      MultipleIsLarge(-d, m);
    }
  }

  lemma ModStep(a: nat, b: nat, m: nat)
    requires m > 0
    ensures (a % m + b) % m == (a + b) % m
  {
    ModShift(a % m + b, a / m, m);
    assert a / m * m + (a % m + b) == a + b;
  }

  lemma ModShift(a: nat, q: nat, m: nat)
    requires m > 0
    ensures (q * m + a) % m == a % m
  {
    assert q * m + (a / m * m) == (q + a / m) * m;
    RemainderUnique(q * m + a, q + a / m, a % m, m);
  }

  /** The loop body of the search, i = (i + ++step) & mask, moves from one probe to the next. */
  lemma ProbeStep(k: nat, i: nat, m: nat)
    requires m > 0
    ensures (Probe(k, i, m) + (i + 1)) % m == Probe(k, i + 1, m)
  {
    ModStep(k + Tri(i), i + 1, m);
  }

  lemma {:induction false} TriDouble(i: nat)
    ensures 2 * Tri(i) == i * (i + 1)
  {
    if i > 0 {
      TriDouble(i - 1);
    }
  }

  lemma EqualResiduesDivide(a: nat, b: nat, m: nat) returns (q: nat)
    requires m > 0 && a <= b && a % m == b % m
    ensures b - a == q * m
  {
    var d := b / m - a / m;
    assert d * m == b - a by {
      assert a == a / m * m + a % m && b == b / m * m + b % m;
      assert d * m == b / m * m - a / m * m;
    }
    NonNegativeFactor(d, m);
    q := d;
  }

  lemma NonNegativeFactor(d: int, m: nat)
    requires m > 0 && d * m >= 0
    ensures d >= 0
  {
    if d <= -1 {
      MultipleIsLarge(-d, m);
    }
  }

  /** A power of two dividing a product with an odd factor divides the other factor. */
  lemma {:induction false} OddFactor(e: nat, a: nat, b: nat, q: nat) returns (r: nat)
    requires b % 2 == 1
    requires a * b == q * Pow2(e)
    ensures a == r * Pow2(e)
    decreases e
  {
    if e == 0 {
      r := a;
    } else {
      var h := Pow2(e - 1);
      assert q * Pow2(e) == 2 * (q * h);
      EvenProduct(a, b, q * h);
      var a' := a / 2;
      assert a' * b == q * h by {
        assert 2 * (a' * b) == (2 * a') * b;
      }
      r := OddFactor(e - 1, a', b, q);
      assert a == r * Pow2(e);
    }
  }

  lemma EvenProduct(a: nat, b: nat, c: nat)
    requires b % 2 == 1 && a * b == 2 * c
    ensures a % 2 == 0
  {
    var b' := b / 2;
    assert b == 2 * b' + 1;
    assert a * b == 2 * (a * b') + a;
  }

  lemma PositiveMultiple(r: nat, m: nat, x: nat)
    requires x == r * m && x > 0
    ensures x >= m
  {
    if r == 0 {
    } else {
      assert r * m == (r - 1) * m + m;
    }
  }

  // ---------------------------------------------------------------- coverage

  lemma FactorDifference(i: nat, j: nat)
    ensures (j - i) * (i + j + 1) == j * (j + 1) - i * (i + 1)
  {}

  lemma TwiceProduct(q: nat, m: nat)
    ensures q * (2 * m) == 2 * (q * m)
  {}

  lemma TriDifference(i: nat, j: nat, t: nat) returns (d: nat, s: nat)
    requires i < j && Tri(j) == Tri(i) + t
    ensures d == j - i && s == i + j + 1 && d * s == 2 * t
  {
    TriDouble(i);
    TriDouble(j);
    FactorDifference(i, j);
    d, s := j - i, i + j + 1;
  }

  /** 2^e does not divide (j-i)(j+i+1)/2 when both factors stay below 2^(e+1). */
  lemma TriNotCongruent(e: nat, i: nat, j: nat, q: nat, t: nat)
    requires i < j && j - i < Pow2(e + 1) && i + j + 1 < Pow2(e + 1) && t == q * Pow2(e)
    ensures Tri(j) != Tri(i) + t
  {
    if Tri(j) == Tri(i) + t {
      var d, s := TriDifference(i, j, t);
      TwiceProduct(q, Pow2(e));
      OneFactorIsLarge(e + 1, d, s, q);
    }
  }

  /** Of two factors of a multiple of 2^e, one of them odd, the other is at least 2^e. */
  lemma OneFactorIsLarge(e: nat, d: nat, s: nat, q: nat)
    requires d > 0 && s > 0 && (d + s) % 2 == 1
    requires d * s == q * Pow2(e)
    ensures d >= Pow2(e) || s >= Pow2(e)
  {
    if s % 2 == 1 {
      var r := OddFactor(e, d, s, q);
      PositiveMultiple(r, Pow2(e), d);
    } else {
      assert s * d == d * s;
      var r := OddFactor(e, s, d, q);
      PositiveMultiple(r, Pow2(e), s);
    }
  }

  lemma ProbesDistinct(k: nat, i: nat, j: nat, m: nat)
    requires PowerOfTwo(m) && i < j
    requires j < m || i + j + 1 < 2 * m
    ensures Probe(k, i, m) != Probe(k, j, m)
  {
    var e: nat :| m == Pow2(e);
    if Probe(k, i, m) == Probe(k, j, m) {
      TriMonotone(i, j);
      var q := EqualResiduesDivide(k + Tri(i), k + Tri(j), m);
      TriNotCongruent(e, i, j, q, q * m);
    }
  }

  lemma {:induction false} TriMonotone(i: nat, j: nat)
    requires i <= j
    ensures Tri(i) <= Tri(j)
    decreases j
  {
    if i < j {
      TriMonotone(i, j - 1);
    }
  }

  ghost function Visited(k: nat, n: nat, m: nat): set<nat>
    requires m > 0
  {
    set i: nat | i < n :: Probe(k, i, m)
  }

  ghost function Below(m: nat): (s: set<nat>)
    ensures |s| == m && forall i: nat :: i in s <==> i < m
  {
    if m == 0 then {} else Below(m - 1) + {m - 1}
  }

  lemma {:induction false} VisitedSize(k: nat, n: nat, m: nat)
    requires PowerOfTwo(m) && m > 0 && n <= m
    ensures |Visited(k, n, m)| == n
  {
    hide Probe;
    if n > 0 {
      VisitedSize(k, n - 1, m);
      forall i: nat | i < n - 1
        ensures Probe(k, i, m) != Probe(k, n - 1, m)
      {
        ProbesDistinct(k, i, n - 1, m);
      }
      assert Visited(k, n, m) == Visited(k, n - 1, m) + {Probe(k, n - 1, m)};
    }
  }

  lemma SubsetSameSize(a: set<nat>, b: set<nat>)
    requires a <= b && |a| == |b|
    ensures a == b
  {
    assert b == a + (b - a);
    assert |b - a| == 0;
  }

  /** Every bucket is looked at by exactly one of the first m probes. */
  lemma ProbesCover(k: nat, b: nat, m: nat) returns (i: nat)
    requires m > 0 && PowerOfTwo(m) && b < m
    ensures i < m && Probe(k, i, m) == b
    ensures forall j: nat :: j < m && Probe(k, j, m) == b ==> j == i
  {
    VisitedSize(k, m, m);
    assert Visited(k, m, m) <= Below(m);
    SubsetSameSize(Visited(k, m, m), Below(m));
    assert b in Below(m);
    i :| i < m && Probe(k, i, m) == b;
    forall j: nat | j < m && Probe(k, j, m) == b
      ensures j == i
    {
      if j < i {
        ProbesDistinct(k, j, i, m);
      } else if i < j {
        ProbesDistinct(k, i, j, m);
      }
    }
  }

  lemma ProbeStart(k: nat, m: nat)
    requires m > 0
    ensures Probe(k, 0, m) == k % m
  {}

  /** One turn of the search loop; within the first m probes it does not come back to its start. */
  lemma ProbeNext(k: nat, i: nat, m: nat)
    requires m > 0 && PowerOfTwo(m) && i + 1 < m
    ensures (Probe(k, i, m) + (i + 1)) % m == Probe(k, i + 1, m)
    ensures Probe(k, i + 1, m) != k % m
  {
    ProbeStep(k, i, m);
    ProbeStart(k, m);
    ProbesDistinct(k, 0, i + 1, m);
  }

  /** The walk first comes back to its starting bucket at step 2m-1, not at step m. */
  lemma FirstReturn(k: nat, i: nat, m: nat)
    requires m > 0 && PowerOfTwo(m) && 0 < i <= 2 * m - 1
    ensures Probe(k, i, m) == Probe(k, 0, m) <==> i == 2 * m - 1
  {
    if i < 2 * m - 1 {
      ProbesDistinct(k, 0, i, m);
    } else {
      TriDouble(i);
      assert Tri(i) == i * m;
      ModShift(k, i, m);
    }
  }
}
