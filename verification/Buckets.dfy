/**
  What the bucket arrays of the hash table mean: a sequence of buckets, the finite map it holds,
  and the invariant that makes every key reachable along its own probe path.
 */
module Buckets {
  import opened Probing
  import opened Capacity

  type byte = x: int | 0 <= x < 256

  /** A C string: its bytes up to, and not including, the terminating zero. */
  type Key = seq<byte>

  datatype Bucket<V> = Empty | Deleted | Live(key: Key, val: V)

  // ---------------------------------------------------------------- hashing

  /** (khint_t)*s, where char is signed. */
  function Widen(b: byte): nat {
    if b < 128 then b else WORD - 256 + b
  }

  /** The X31 string hash; (h << 5) - h is 31 * h. */
  function Hash(key: Key): (h: nat)
    ensures h < WORD
  {
    if key == [] then 0
    else if |key| == 1 then Widen(key[0])
    else (31 * Hash(key[..|key| - 1]) + Widen(key[|key| - 1])) % WORD
  }

  /** A signed char. */
  function Signed(b: byte): int { if b < 128 then b else (b as int) - 256 }

  function Pow31(e: nat): nat { if e == 0 then 1 else 31 * Pow31(e - 1) }

  /** The characters as the digits of a polynomial in 31, the first one weighing most. */
  function Weighted(key: Key): int {
    if key == [] then 0 else Signed(key[0]) * Pow31(|key| - 1) + Weighted(key[1..])
  }

  lemma {:induction false} WeightedNext(key: Key, b: byte)
    ensures Weighted(key + [b]) == 31 * Weighted(key) + Signed(b)
    decreases |key|
  {
    hide Signed;
    if key == [] {
      assert (key + [b])[1..] == [];
    } else {
      assert (key + [b])[1..] == key[1..] + [b];
      WeightedNext(key[1..], b);
      assert Signed(key[0]) * Pow31(|key|) == 31 * (Signed(key[0]) * Pow31(|key| - 1));
    }
  }

  lemma ModStep(h: nat, w: int, v: nat, s: int)
    requires h == w % 0x1_0000_0000 && v == s % 0x1_0000_0000
    ensures (31 * h + v) % 0x1_0000_0000 == (31 * w + s) % 0x1_0000_0000
  {
    var a, b := w / 0x1_0000_0000, s / 0x1_0000_0000;
    assert 31 * w + s == 31 * h + v + 0x1_0000_0000 * (31 * a + b);
  }

  /** The hash is the polynomial modulo 2^32, signed characters included. */
  lemma {:induction false} HashIsPolynomial(key: Key)
    ensures Hash(key) == Weighted(key) % 0x1_0000_0000
    decreases |key|
  {
    if key != [] {
      var init, last := key[..|key| - 1], key[|key| - 1];
      assert key == init + [last];
      WeightedNext(init, last);
      HashIsPolynomial(init);
      ModStep(Hash(init), Weighted(init), Widen(last), Signed(last));
    }
  }

  method HashString(key: Key) returns (h: nat)
    ensures h == Hash(key)
  {
    h := if key == [] then 0 else Widen(key[0]);
    if key != [] {
      assert key[..1] == [key[0]];
      var i := 1;
      while i < |key|
        invariant 1 <= i <= |key|
        invariant h == Hash(key[..i])
      {
        assert key[..i + 1][..i] == key[..i];
        h := (31 * h + Widen(key[i])) % WORD;
        i := i + 1;
      }
      assert key[..i] == key;
    }
  }

  // ---------------------------------------------------------------- the map held by a table

  ghost predicate DistinctKeys<V>(t: seq<Bucket<V>>) {
    forall i, j :: 0 <= i < |t| && 0 <= j < |t| && t[i].Live? && t[j].Live? && t[i].key == t[j].key ==> i == j
  }

  ghost predicate HasKey<V>(t: seq<Bucket<V>>, k: Key) {
    exists i :: 0 <= i < |t| && t[i].Live? && t[i].key == k
  }

  ghost function Contents<V>(t: seq<Bucket<V>>): (m: map<Key, V>)
    requires DistinctKeys(t)
    ensures forall k :: k in m <==> HasKey(t, k)
    ensures forall i :: 0 <= i < |t| && t[i].Live? ==> t[i].key in m && m[t[i].key] == t[i].val
  {
    map i | 0 <= i < |t| && t[i].Live? :: t[i].key := t[i].val
  }

  ghost function LiveSet<V>(t: seq<Bucket<V>>): set<int> {
    set i | 0 <= i < |t| && t[i].Live?
  }

  ghost function UsedSet<V>(t: seq<Bucket<V>>): set<int> {
    set i | 0 <= i < |t| && !t[i].Empty?
  }

  // ---------------------------------------------------------------- probe paths

  /** Every bucket that the search for hash h looks at before its probe number s has been used. */
  ghost predicate PathUsed<V>(t: seq<Bucket<V>>, h: nat, s: nat)
    requires |t| > 0
  {
    forall r: nat :: r < s ==> !t[Probe(h, r, |t|)].Empty?
  }

  ghost predicate Reachable<V>(t: seq<Bucket<V>>, h: nat, i: nat)
    requires |t| > 0
  {
    exists s: nat :: s < |t| && Probe(h, s, |t|) == i && PathUsed(t, h, s)
  }

  ghost predicate WellPlaced<V>(t: seq<Bucket<V>>) {
    forall i :: 0 <= i < |t| && t[i].Live? ==> Reachable(t, Hash(t[i].key), i)
  }

  ghost predicate WellFormed<V>(t: seq<Bucket<V>>) {
    && PowerOfTwo(|t|)
    && DistinctKeys(t)
    && WellPlaced(t)
  }

  /** No bucket becomes empty again: this is what keeps every other key reachable. */
  ghost predicate KeepsUsed<V>(t: seq<Bucket<V>>, u: seq<Bucket<V>>) {
    |t| == |u| && forall i :: 0 <= i < |t| && !t[i].Empty? ==> !u[i].Empty?
  }

  lemma ReachableStays<V>(t: seq<Bucket<V>>, u: seq<Bucket<V>>, h: nat, i: nat)
    requires |t| > 0 && KeepsUsed(t, u) && Reachable(t, h, i)
    ensures Reachable(u, h, i)
  {
    var s: nat :| s < |t| && Probe(h, s, |t|) == i && PathUsed(t, h, s);
    assert PathUsed(u, h, s);
  }

  /** While some bucket is empty, every search meets an empty bucket within |t| probes. */
  lemma FirstEmpty<V>(t: seq<Bucket<V>>, h: nat) returns (e: nat)
    requires PowerOfTwo(|t|) && |UsedSet(t)| < |t|
    ensures e < |t| && t[Probe(h, e, |t|)].Empty? && PathUsed(t, h, e)
  {
    var b := SomeEmpty(t);
    var s := ProbesCover(h, b, |t|);
    e := Earliest(t, h, s);
  }

  lemma {:induction false} Earliest<V>(t: seq<Bucket<V>>, h: nat, s: nat) returns (e: nat)
    requires |t| > 0 && t[Probe(h, s, |t|)].Empty?
    ensures e <= s && t[Probe(h, e, |t|)].Empty? && PathUsed(t, h, e)
    decreases s
  {
    if r: nat :| r < s && t[Probe(h, r, |t|)].Empty? {
      e := Earliest(t, h, r);
    } else {
      e := s;
    }
  }

  lemma SomeEmpty<V>(t: seq<Bucket<V>>) returns (b: nat)
    requires |UsedSet(t)| < |t|
    ensures b < |t| && t[b].Empty?
  {
    FullTable(t, |t|);
    assert t[..|t|] == t;
    b :| 0 <= b < |t| && t[b].Empty?;
  }

  lemma {:induction false} FullTable<V>(t: seq<Bucket<V>>, n: nat)
    requires n <= |t|
    ensures (forall i :: 0 <= i < n ==> !t[i].Empty?) ==> |UsedSet(t[..n])| == n
  {
    if n > 0 && forall i :: 0 <= i < n ==> !t[i].Empty? {
      FullTable(t, n - 1);
      assert UsedSet(t[..n]) == UsedSet(t[..n - 1]) + {n - 1};
    }
  }

  /** A search that reached an empty bucket without meeting the key shows the key is absent. */
  lemma AbsentWhenPathEnds<V>(t: seq<Bucket<V>>, k: Key, e: nat)
    requires |t| > 0 && WellPlaced(t)
    requires t[Probe(Hash(k), e, |t|)].Empty?
    requires NotMet(t, k, e)
    ensures !HasKey(t, k)
  {
    hide Hash, Probe;
    forall i | 0 <= i < |t| && t[i].Live?
      ensures t[i].key != k
    {
      assert Reachable(t, Hash(t[i].key), i);
      var s: nat :| s < |t| && Probe(Hash(t[i].key), s, |t|) == i && PathUsed(t, Hash(t[i].key), s);
    }
  }

  // ---------------------------------------------------------------- where a new key goes

  /** Probes lo to hi of the search for hash h meet no deleted bucket. */
  ghost predicate NoDeletedFrom<V>(t: seq<Bucket<V>>, h: nat, lo: nat, hi: nat)
    requires |t| > 0
  {
    forall r: nat :: lo <= r < hi ==> !t[Probe(h, r, |t|)].Deleted?
  }

  ghost predicate LastDeleted<V>(t: seq<Bucket<V>>, h: nat, r: nat, hi: nat)
    requires |t| > 0
  {
    t[Probe(h, r, |t|)].Deleted? && NoDeletedFrom(t, h, r + 1, hi)
  }

  /** The path ends at probe e; x is the bucket of probe s, the last deleted one of the path, or of e. */
  ghost predicate InsertsAt<V>(t: seq<Bucket<V>>, h: nat, e: nat, s: nat, x: nat)
    requires |t| > 0
  {
    && s <= e < |t| && t[Probe(h, e, |t|)].Empty? && PathUsed(t, h, e)
    && x == Probe(h, s, |t|)
    && if s == e then NoDeletedFrom(t, h, 0, e) else LastDeleted(t, h, s, e)
  }

  ghost predicate InsertionPoint<V>(t: seq<Bucket<V>>, h: nat, x: nat)
    requires |t| > 0
  {
    exists e: nat, s: nat :: InsertsAt(t, h, e, s, x)
  }

  lemma InsertionPointNotLive<V>(t: seq<Bucket<V>>, h: nat, x: nat)
    requires |t| > 0 && InsertionPoint(t, h, x)
    ensures x < |t| && !t[x].Live?
  {
    var e: nat, s: nat :| InsertsAt(t, h, e, s, x);
  }

  /** The first s probes for the key did not meet it. */
  ghost predicate NotMet<V>(t: seq<Bucket<V>>, key: Key, s: nat)
    requires |t| > 0
  {
    forall r: nat :: r < s ==> var b := t[Probe(Hash(key), r, |t|)]; !(b.Live? && b.key == key)
  }

  /** What the search remembers: the last deleted bucket among the first hi probes, |t| if none. */
  ghost predicate Remembers<V>(t: seq<Bucket<V>>, h: nat, site: nat, r: nat, hi: nat)
    requires |t| > 0
  {
    if site == |t| then NoDeletedFrom(t, h, 0, hi)
    else r < hi && site == Probe(h, r, |t|) && LastDeleted(t, h, r, hi)
  }

  lemma RemembersNothing<V>(t: seq<Bucket<V>>, h: nat)
    requires |t| > 0
    ensures Remembers(t, h, |t|, 0, 0)
  {}

  lemma RemembersNext<V>(t: seq<Bucket<V>>, h: nat, site: nat, r: nat, hi: nat)
    requires |t| > 0 && Remembers(t, h, site, r, hi)
    ensures if t[Probe(h, hi, |t|)].Deleted? then Remembers(t, h, Probe(h, hi, |t|), hi, hi + 1)
            else Remembers(t, h, site, r, hi + 1)
  {
    hide Probe;
  }

  lemma RememberedPoint<V>(t: seq<Bucket<V>>, h: nat, site: nat, r: nat, e: nat)
    requires |t| > 0 && Remembers(t, h, site, r, e)
    requires e < |t| && t[Probe(h, e, |t|)].Empty? && PathUsed(t, h, e)
    ensures InsertionPoint(t, h, if site == |t| then Probe(h, e, |t|) else site)
  {
    hide Probe;
    if site == |t| {
      assert InsertsAt(t, h, e, e, Probe(h, e, |t|));
    } else {
      assert InsertsAt(t, h, e, r, site);
    }
  }

  lemma InsertAtPoint<V>(t: seq<Bucket<V>>, k: Key, v: V, x: nat)
    requires WellFormed(t) && |t| > 0 && InsertionPoint(t, Hash(k), x) && k !in Contents(t)
    ensures x < |t| && !t[x].Live?
    ensures WellFormed(t[x := Live(k, v)])
    ensures Contents(t[x := Live(k, v)]) == Contents(t)[k := v]
    ensures |LiveSet(t[x := Live(k, v)])| == |LiveSet(t)| + 1
    ensures |UsedSet(t[x := Live(k, v)])| == |UsedSet(t)| + if t[x].Empty? then 1 else 0
  {
    hide Hash, Contents, Probe, WellPlaced;
    var h := Hash(k);
    var e: nat, s: nat :| InsertsAt(t, h, e, s, x);
    assert Reachable(t, h, x) by { assert PathUsed(t, h, s); }
    InsertBucket(t, x, k, v);
    assert x !in LiveSet(t) && (x !in UsedSet(t) <==> t[x].Empty?);
    assert t[x].Deleted? ==> UsedSet(t) + {x} == UsedSet(t);
  }

  lemma LiveIsUsed<V>(t: seq<Bucket<V>>)
    ensures LiveSet(t) <= UsedSet(t) && |LiveSet(t)| <= |UsedSet(t)|
  {
    SubsetSize(LiveSet(t), UsedSet(t));
  }

  lemma SubsetSize(a: set<int>, b: set<int>)
    requires a <= b
    ensures |a| <= |b|
  {
    assert b == a + (b - a);
  }

  // ---------------------------------------------------------------- one bucket changes

  lemma LiveStaysPlaced<V>(t: seq<Bucket<V>>, u: seq<Bucket<V>>, x: nat)
    requires |t| > 0 && KeepsUsed(t, u) && WellPlaced(t)
    requires forall i :: 0 <= i < |t| && i != x ==> u[i] == t[i]
    requires x < |t| && u[x].Live? ==> Reachable(t, Hash(u[x].key), x)
    ensures WellPlaced(u)
  {
    hide Hash;
    forall i | 0 <= i < |u| && u[i].Live?
      ensures Reachable(u, Hash(u[i].key), i)
    {
      assert i != x ==> t[i].Live? && Reachable(t, Hash(t[i].key), i);
      ReachableStays(t, u, Hash(u[i].key), i);
    }
  }

  lemma InsertContents<V>(t: seq<Bucket<V>>, x: nat, k: Key, v: V)
    requires DistinctKeys(t) && x < |t| && !t[x].Live? && !HasKey(t, k)
    ensures DistinctKeys(t[x := Live(k, v)])
    ensures Contents(t[x := Live(k, v)]) == Contents(t)[k := v]
  {
    hide Contents;
    var u := t[x := Live(k, v)];
    assert DistinctKeys(u) by {
      assert forall i :: 0 <= i < |t| && t[i].Live? ==> t[i].key != k;
    }
    var m, n := Contents(t), Contents(u);
    assert n[k] == v by { assert u[x] == Live(k, v); }
    forall q | q in m && q != k
      ensures q in n && n[q] == m[q]
    {
      var i :| 0 <= i < |t| && t[i].Live? && t[i].key == q;
      assert u[i] == t[i];
    }
    forall q | q in n && q != k
      ensures q in m
    {
      var i :| 0 <= i < |u| && u[i].Live? && u[i].key == q;
      assert u[i] == t[i];
    }
  }

  lemma InsertBucket<V>(t: seq<Bucket<V>>, x: nat, k: Key, v: V)
    requires WellFormed(t) && x < |t| && !t[x].Live? && !HasKey(t, k)
    requires Reachable(t, Hash(k), x)
    ensures WellFormed(t[x := Live(k, v)])
    ensures Contents(t[x := Live(k, v)]) == Contents(t)[k := v]
    ensures LiveSet(t[x := Live(k, v)]) == LiveSet(t) + {x}
    ensures UsedSet(t[x := Live(k, v)]) == UsedSet(t) + {x}
  {
    hide Hash, Contents;
    InsertContents(t, x, k, v);
    LiveStaysPlaced(t, t[x := Live(k, v)], x);
  }

  lemma DeleteContents<V>(t: seq<Bucket<V>>, x: nat)
    requires DistinctKeys(t) && x < |t| && t[x].Live?
    ensures DistinctKeys(t[x := Deleted])
    ensures Contents(t[x := Deleted]) == Contents(t) - {t[x].key}
  {
    hide Contents;
    var u := t[x := Deleted];
    assert DistinctKeys(u) by {
      assert forall i :: 0 <= i < |t| && i != x ==> u[i] == t[i];
    }
    var m, n := Contents(t), Contents(u);
    forall q | q in m && q != t[x].key
      ensures q in n && n[q] == m[q]
    {
      var i :| 0 <= i < |t| && t[i].Live? && t[i].key == q;
      assert u[i] == t[i];
    }
    forall q | q in n
      ensures q in m && q != t[x].key
    {
      var i :| 0 <= i < |u| && u[i].Live? && u[i].key == q;
      assert u[i] == t[i];
    }
  }

  lemma DeleteBucket<V>(t: seq<Bucket<V>>, x: nat)
    requires DistinctKeys(t) && x < |t| && t[x].Live?
    ensures DistinctKeys(t[x := Deleted])
    ensures WellFormed(t) ==> WellFormed(t[x := Deleted])
    ensures Contents(t[x := Deleted]) == Contents(t) - {t[x].key}
    ensures LiveSet(t[x := Deleted]) == LiveSet(t) - {x}
    ensures UsedSet(t[x := Deleted]) == UsedSet(t)
  {
    hide Hash, Contents, DistinctKeys, Reachable;
    DeleteContents(t, x);
    if WellFormed(t) { LiveStaysPlaced(t, t[x := Deleted], x); }
  }

  lemma ChangeValueContents<V>(t: seq<Bucket<V>>, x: nat, v: V)
    requires DistinctKeys(t) && x < |t| && t[x].Live?
    ensures var u := t[x := Live(t[x].key, v)];
            DistinctKeys(u) && Contents(u) == Contents(t)[t[x].key := v]
  {
    hide Contents;
    var k := t[x].key;
    DeleteContents(t, x);
    var d := t[x := Deleted];
    assert !HasKey(d, k) by { assert k !in Contents(d); }
    InsertContents(d, x, k, v);
    assert d[x := Live(k, v)] == t[x := Live(k, v)];
  }

  lemma ChangeValue<V>(t: seq<Bucket<V>>, x: nat, v: V)
    requires WellFormed(t) && x < |t| && t[x].Live?
    ensures var u := t[x := Live(t[x].key, v)];
            WellFormed(u) && Contents(u) == Contents(t)[t[x].key := v]
            && LiveSet(u) == LiveSet(t) && UsedSet(u) == UsedSet(t)
  {
    hide Hash, Contents, Reachable, DistinctKeys;
    ChangeValueContents(t, x, v);
    LiveStaysPlaced(t, t[x := Live(t[x].key, v)], x);
  }

  lemma NoLiveBucket<V>(t: seq<Bucket<V>>)
    requires DistinctKeys(t) && LiveSet(t) == {}
    ensures Contents(t) == map[]
  {
    hide Contents;
    forall i | 0 <= i < |t|
      ensures !t[i].Live?
    {
      assert i !in LiveSet(t);
    }
    assert forall k :: !HasKey(t, k);
  }

  lemma RemoveOneEntry<V>(m: map<Key, V>, n: map<Key, V>, k: Key)
    requires k in m && n == m - {k}
    ensures |m| == |n| + 1
  {
    assert m.Keys == n.Keys + {k};
  }

  /** The map has as many entries as there are live buckets. */
  lemma {:induction false} ContentsSize<V>(t: seq<Bucket<V>>)
    requires DistinctKeys(t)
    ensures |Contents(t)| == |LiveSet(t)|
    decreases |LiveSet(t)|
  {
    hide Hash, Contents, DistinctKeys, HasKey;
    if x :| x in LiveSet(t) {
      var u := t[x := Deleted];
      assert DistinctKeys(u) && Contents(u) == Contents(t) - {t[x].key} by { DeleteContents(t, x); }
      assert LiveSet(t) == LiveSet(u) + {x};
      ContentsSize(u);
      RemoveOneEntry(Contents(t), Contents(u), t[x].key);
    } else {
      NoLiveBucket(t);
    }
  }

  // ---------------------------------------------------------------- iteration

  /** The live buckets in the order in which kh_begin .. kh_end meets them. */
  ghost function LiveBuckets<V>(t: seq<Bucket<V>>): (s: seq<Bucket<V>>)
    ensures |s| == |LiveSet(t)|
    ensures forall j :: 0 <= j < |s| ==> s[j].Live? && s[j] in t
  {
    if t == [] then
      assert LiveSet(t) == {};
      []
    else
      var n := |t| - 1;
      assert LiveSet(t) == if t[n].Live? then LiveSet(t[..n]) + {n} else LiveSet(t[..n]);
      LiveBuckets(t[..n]) + if t[n].Live? then [t[n]] else []
  }

  lemma {:induction false} LiveBucketsComplete<V>(t: seq<Bucket<V>>, i: nat)
    requires i < |t| && t[i].Live?
    ensures t[i] in LiveBuckets(t)
  {
    var n := |t| - 1;
    if i < n {
      assert t[..n][i] == t[i];
      LiveBucketsComplete(t[..n], i);
    }
  }

  lemma {:induction false} LiveBucketsDistinct<V>(t: seq<Bucket<V>>)
    requires DistinctKeys(t)
    ensures forall i, j :: 0 <= i < j < |LiveBuckets(t)| ==> LiveBuckets(t)[i].key != LiveBuckets(t)[j].key
  {
    if t != [] {
      var n := |t| - 1;
      LiveBucketsDistinct(t[..n]);
      var s := LiveBuckets(t[..n]);
      forall j | 0 <= j < |s| && t[n].Live?
        ensures s[j].key != t[n].key
      {
        var i :| 0 <= i < n && t[..n][i] == s[j];
        assert t[i] == s[j];
      }
    }
  }

  /** Iterating over a table visits every entry of its map once, and nothing else. */
  lemma IterationVisitsOnce<V>(t: seq<Bucket<V>>)
    requires DistinctKeys(t)
    ensures |LiveBuckets(t)| == |Contents(t)|
    ensures forall j :: 0 <= j < |LiveBuckets(t)| ==>
              var b := LiveBuckets(t)[j]; b.key in Contents(t) && Contents(t)[b.key] == b.val
    ensures forall k :: k in Contents(t) ==> Live(k, Contents(t)[k]) in LiveBuckets(t)
    ensures forall i, j :: 0 <= i < j < |LiveBuckets(t)| ==> LiveBuckets(t)[i].key != LiveBuckets(t)[j].key
  {
    hide Contents;
    ContentsSize(t);
    LiveBucketsDistinct(t);
    var s := LiveBuckets(t);
    forall j | 0 <= j < |s|
      ensures s[j].key in Contents(t) && Contents(t)[s[j].key] == s[j].val
    {
      var i :| 0 <= i < |t| && t[i] == s[j];
    }
    forall k | k in Contents(t)
      ensures Live(k, Contents(t)[k]) in s
    {
      var i :| 0 <= i < |t| && t[i].Live? && t[i].key == k;
      LiveBucketsComplete(t, i);
    }
  }

  lemma LiveBucketsNext<V>(t: seq<Bucket<V>>, k: nat)
    requires k < |t|
    ensures LiveBuckets(t[..k + 1]) == LiveBuckets(t[..k]) + if t[k].Live? then [t[k]] else []
    ensures |LiveBuckets(t[..k + 1])| <= |LiveSet(t)|
  {
    assert t[..k + 1][..k] == t[..k];
    SubsetSize(LiveSet(t[..k + 1]), LiveSet(t));
  }
}
