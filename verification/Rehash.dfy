/**
  The in-place rehash on values.  Halfway through, an entry is in exactly one of three places: still
  in the old table, already in the new one, or in the hand of the kick-out loop.
 */
module Rehash {
  import opened Probing
  import opened Capacity
  import opened Buckets

  datatype Hand<V> = Nothing | Carry(key: Key, val: V)

  /** The number of buckets kh_resize settles on for a requested number. */
  function NewCapacity(requested: nat): nat
    requires requested < WORD
  {
    if RoundUp32(requested) < 4 then 4 else RoundUp32(requested)
  }

  /** Whatever is requested, the capacity is a legal one; it is enough unless the request lies above the
      largest power of two in a word, for which it is the least capacity of all. */
  lemma NewCapacityIsPower(requested: nat)
    requires requested < WORD
    ensures PowerOfTwo(NewCapacity(requested)) && 4 <= NewCapacity(requested) <= MAX_BUCKETS
    ensures requested <= MAX_BUCKETS ==> requested <= NewCapacity(requested)
    ensures requested > MAX_BUCKETS ==> NewCapacity(requested) == 4
  {
    hide RoundUp32;
    assert Pow2(2) == 4;
    if 1 <= requested <= MAX_BUCKETS {
      RoundUp32IsLeastPowerOfTwo(requested);
      PowerAtMost(RoundUp32(requested));
    } else {
      RoundUp32Wraps(requested);
    }
  }

  lemma PowerAtMost(r: nat)
    requires PowerOfTwo(r) && r < 2 * MAX_BUCKETS
    ensures r <= MAX_BUCKETS
  {
    Pow2At32();
    if MAX_BUCKETS < r {
      var k := 31;
      assert PowerOfTwo(Pow2(k));
      PowersOfTwoGap(MAX_BUCKETS, r);
    }
  }

  lemma SmallCapacities()
    ensures NewCapacity(1) == 4 && UpperBound(4) == 3
  {
    assert Smear(0) == 0;
    UpperBoundExact(4);
  }

  /** What kh_put asks for at the load limit is enough, unless the doubled capacity wraps: then it is too little for
      anything to happen. */
  lemma RoomToGrow(n: nat, size: nat)
    requires n == 0 || (PowerOfTwo(n) && 4 <= n <= MAX_BUCKETS)
    requires if n == 0 then size == 0 else size < n
    ensures n > 2 * size ==> NewCapacity(n - 1) == n && size < UpperBound(n)
    ensures n <= 2 * size && n > MAX_BUCKETS / 2 ==> size >= UpperBound(NewCapacity(n + 1))
    ensures n <= 2 * size && n <= MAX_BUCKETS / 2 ==>
              NewCapacity(n + 1) == (if n == 0 then 4 else 2 * n) && size < UpperBound(NewCapacity(n + 1))
  {
    hide UpperBound, RoundUp32;
    SmallCapacities();
    if n > 0 {
      CapacityIsDivisible(n);
      UpperBoundExact(n);
      RoundUpNeighbours(n);
      NewCapacityIsPower(n + 1);
    }
  }

  // ---------------------------------------------------------------- the three places

  ghost function InHand<V>(hand: Hand<V>): map<Key, V> {
    if hand.Carry? then map[hand.key := hand.val] else map[]
  }

  ghost predicate NoTombstones<V>(t: seq<Bucket<V>>) {
    forall i :: 0 <= i < |t| ==> !t[i].Deleted?
  }

  /** The three maps are disjoint and together make up m. */
  ghost predicate Split<V>(m: map<Key, V>, inOld: map<Key, V>, inNew: map<Key, V>, inHand: map<Key, V>) {
    && inOld.Keys !! inNew.Keys && inHand.Keys !! inOld.Keys + inNew.Keys
    && m == inOld + inNew + inHand
  }

  lemma SplitOut<V>(m: map<Key, V>, a: map<Key, V>, b: map<Key, V>, k: Key, v: V)
    requires Split(m, a, b, map[]) && k in a && a[k] == v
    ensures Split(m, a - {k}, b, map[k := v])
  {}

  lemma SplitIn<V>(m: map<Key, V>, a: map<Key, V>, b: map<Key, V>, k: Key, v: V)
    requires Split(m, a, b, map[k := v])
    ensures k !in b && Split(m, a, b[k := v], map[])
  {
    assert k in map[k := v];
    assert k !in a + b;
  }

  ghost predicate Rehashing<V>(old_: seq<Bucket<V>>, new_: seq<Bucket<V>>, hand: Hand<V>, m: map<Key, V>, size: nat) {
    && DistinctKeys(old_) && WellFormed(new_) && NoTombstones(new_)
    && Split(m, Contents(old_), Contents(new_), InHand(hand))
    && size == |LiveSet(old_)| + |LiveSet(new_)| + if hand.Carry? then 1 else 0
  }

  lemma NoTombstonesUsed<V>(t: seq<Bucket<V>>)
    requires NoTombstones(t)
    ensures UsedSet(t) == LiveSet(t)
  {}

  /** An entry is taken out of its old bucket: the scan reached it, or a newcomer kicked it out. */
  lemma PickUp<V>(ov: seq<Bucket<V>>, nv: seq<Bucket<V>>, j: nat, m: map<Key, V>, size: nat)
    requires Rehashing(ov, nv, Nothing, m, size) && j < |ov| && ov[j].Live?
    ensures Rehashing(ov[j := Deleted], nv, Carry(ov[j].key, ov[j].val), m, size)
    ensures LiveSet(ov[j := Deleted]) == LiveSet(ov) - {j} && j in LiveSet(ov)
  {
    hide Hash, Contents, WellPlaced, DistinctKeys, HasKey, NoTombstones, Split;
    SplitOut(m, Contents(ov), Contents(nv), ov[j].key, ov[j].val);
    DeleteBucket(ov, j);
  }

  lemma FreshKey<V>(nv: seq<Bucket<V>>, k: Key)
    requires DistinctKeys(nv) && k !in Contents(nv)
    ensures !HasKey(nv, k)
  {}

  /** The entry in hand is written to the empty bucket where its probe path ends. */
  lemma PutDown<V>(ov: seq<Bucket<V>>, nv: seq<Bucket<V>>, k: Key, v: V, x: nat, m: map<Key, V>, size: nat)
    requires Rehashing(ov, nv, Carry(k, v), m, size)
    requires x < |nv| && nv[x].Empty? && Reachable(nv, Hash(k), x)
    ensures Rehashing(ov, nv[x := Live(k, v)], Nothing, m, size)
  {
    hide Hash, Contents, WellPlaced, Reachable, DistinctKeys, HasKey, Split;
    SplitIn(m, Contents(ov), Contents(nv), k, v);
    FreshKey(nv, k);
    InsertBucket(nv, x, k, v);
    assert LiveSet(nv[x := Live(k, v)]) == LiveSet(nv) + {x} && x !in LiveSet(nv);
  }

  lemma RehashingFacts<V>(ov: seq<Bucket<V>>, nv: seq<Bucket<V>>, k: Key, v: V, m: map<Key, V>, size: nat)
    requires Rehashing(ov, nv, Carry(k, v), m, size) && size <= |nv|
    ensures PowerOfTwo(|nv|) && |UsedSet(nv)| < |nv|
  {
    hide Hash, Contents, WellPlaced, Reachable, DistinctKeys, HasKey, Split;
    NoTombstonesUsed(nv);
  }

  lemma RehashStarts<V>(ov: seq<Bucket<V>>, nv: seq<Bucket<V>>)
    requires DistinctKeys(ov) && PowerOfTwo(|nv|)
    requires forall i :: 0 <= i < |nv| ==> nv[i].Empty?
    ensures Rehashing(ov, nv, Nothing, Contents(ov), |LiveSet(ov)|)
  {
    hide Hash, Contents, Reachable;
    assert DistinctKeys(nv) && LiveSet(nv) == {};
    NoLiveBucket(nv);
  }

  /** When no old bucket is live any more the new table holds exactly the old map. */
  lemma RehashEnds<V>(ov: seq<Bucket<V>>, nv: seq<Bucket<V>>, m: map<Key, V>, size: nat)
    requires Rehashing(ov, nv, Nothing, m, size)
    requires forall i :: 0 <= i < |ov| ==> !ov[i].Live?
    ensures WellFormed(nv) && Contents(nv) == m && NoTombstones(nv)
    ensures |LiveSet(nv)| == size && |UsedSet(nv)| == size
  {
    hide Hash, Contents, WellFormed, DistinctKeys;
    assert LiveSet(ov) == {};
    NoLiveBucket(ov);
    NoTombstonesUsed(nv);
  }
}
