/**
  The open-addressing hash table: arrays of flags, keys and values changed in place by the probe
  loops of get and put, and by the kick-out rehash of resize.
 */
module Khash {
  import opened Probing
  import opened Capacity
  import opened Buckets
  import opened Rehash
  import F = Flags

  datatype PutResult = Present | NewBucket | ReusedBucket

  lemma PowerTimes16(e: nat)
    requires e >= 4
    ensures Pow2(e) == 16 * Pow2(e - 4)
  {
    assert Pow2(e - 1) == 2 * Pow2(e - 2);
    assert Pow2(e - 3) == 2 * Pow2(e - 4);
  }

  lemma WordsCover(m: nat)
    requires PowerOfTwo(m)
    ensures forall i: nat :: i < m ==> i / 16 < F.WordsFor(m)
  {
    var e: nat :| m == Pow2(e);
    var low := 3;
    assert Pow2(low) == 8;
    if e <= low {
      Pow2Monotone(e, low);
    } else {
      PowerTimes16(e);
      forall i: nat | i < m
        ensures i / 16 < m / 16
      {
        DivisionBelow(i, Pow2(e - 4));
      }
    }
  }

  lemma DivisionBelow(i: nat, q: nat)
    requires i < 16 * q
    ensures i / 16 < q && 16 * q / 16 == q
  {}

  ghost predicate Roomy(f: array<bv32>, m: nat) {
    forall i: nat :: i < m ==> i / 16 < f.Length
  }

  ghost predicate Fits<V>(f: array<bv32>, keys: array<Key>, vals: array<V>, m: nat) {
    Roomy(f, m) && m <= keys.Length && m <= vals.Length
  }

  ghost predicate Apart<V>(f: array<bv32>, keys: array<Key>, vals: array<V>) {
    keys as object != vals && f as object != vals && f as object != keys
  }

  ghost predicate SlotStored<V>(f: array<bv32>, keys: array<Key>, vals: array<V>, t: seq<Bucket<V>>, i: nat)
    requires Fits(f, keys, vals, |t|) && i < |t|
    reads f, keys, vals
  {
    && (t[i].Empty? <==> F.IsEmpty(f, i))
    && (!t[i].Empty? ==> (t[i].Deleted? <==> F.IsDel(f, i)))
    && (t[i].Live? ==> t[i].key == keys[i] && t[i].val == vals[i])
  }

  /** The arrays store the bucket sequence t. */
  ghost predicate Stores<V>(f: array<bv32>, keys: array<Key>, vals: array<V>, t: seq<Bucket<V>>)
    reads f, keys, vals
  {
    && Fits(f, keys, vals, |t|)
    && forall i: nat :: i < |t| ==> SlotStored(f, keys, vals, t, i)
  }

  lemma StoresFits<V>(f: array<bv32>, keys: array<Key>, vals: array<V>, t: seq<Bucket<V>>)
    requires Stores(f, keys, vals, t)
    ensures Fits(f, keys, vals, |t|)
  {}

  lemma StoresSlot<V>(f: array<bv32>, keys: array<Key>, vals: array<V>, t: seq<Bucket<V>>, i: nat)
    requires Stores(f, keys, vals, t) && i < |t|
    ensures Fits(f, keys, vals, |t|) && SlotStored(f, keys, vals, t, i)
  {}

  /** A bucket takes the key, and whatever value its slot holds. */
  method Occupy<V>(f: array<bv32>, keys: array<Key>, vals: array<V>, x: nat, key: Key, ghost t: seq<Bucket<V>>)
    requires Apart(f, keys, vals) && Stores(f, keys, vals, t) && x < |t|
    modifies f, keys
    ensures Stores(f, keys, vals, t[x := Live(key, vals[x])])
  {
    hide F.EmptyBit, F.DelBit, F.EitherBit, F.Shift;
    keys[x] := key;
    F.SetIsBothFalse(f, x);
    ghost var u := t[x := Live(key, vals[x])];
    forall i: nat | i < |u|
      ensures SlotStored(f, keys, vals, u, i)
    {
      assert old(SlotStored(f, keys, vals, t, i));
    }
  }

  method MarkDeleted<V>(f: array<bv32>, keys: array<Key>, vals: array<V>, x: nat, ghost t: seq<Bucket<V>>)
    requires Apart(f, keys, vals) && Stores(f, keys, vals, t) && x < |t| && t[x].Live?
    modifies f
    ensures Stores(f, keys, vals, t[x := Deleted])
  {
    hide F.EmptyBit, F.DelBit, F.EitherBit, F.Shift;
    assert SlotStored(f, keys, vals, t, x);
    F.SetIsDelTrue(f, x);
    ghost var u := t[x := Deleted];
    forall i: nat | i < |u|
      ensures SlotStored(f, keys, vals, u, i)
    {
      assert old(SlotStored(f, keys, vals, t, i));
    }
  }

  ghost predicate SlotMixed<V>(f: array<bv32>, g: array<bv32>, keys: array<Key>, vals: array<V>,
                               ov: seq<Bucket<V>>, nv: seq<Bucket<V>>, i: nat)
    requires Fits(f, keys, vals, |ov|) && Fits(g, keys, vals, |nv|)
    reads f, g, keys, vals
  {
    && (i < |ov| ==> (ov[i].Live? <==> !F.IsEither(f, i)))
    && (i < |ov| && ov[i].Live? ==> ov[i].key == keys[i] && ov[i].val == vals[i])
    && (i < |nv| ==> (nv[i].Empty? <==> F.IsEmpty(g, i)) && !F.IsDel(g, i))
    && (i < |nv| && nv[i].Live? ==> nv[i].key == keys[i] && nv[i].val == vals[i])
    && (i < |ov| && i < |nv| ==> !(ov[i].Live? && nv[i].Live?))
  }

  /** Halfway through a rehash: f and ov describe the old table, g and nv the new one, and both share
      the key and value arrays; no slot of these is claimed by both. */
  ghost predicate Mixed<V>(f: array<bv32>, g: array<bv32>, keys: array<Key>, vals: array<V>,
                           ov: seq<Bucket<V>>, nv: seq<Bucket<V>>)
    reads f, g, keys, vals
  {
    && f != g && Apart(f, keys, vals) && Apart(g, keys, vals)
    && Fits(f, keys, vals, |ov|) && Fits(g, keys, vals, |nv|)
    && forall i: nat :: SlotMixed(f, g, keys, vals, ov, nv, i)
  }

  /** The probe loop of the rehash: the first bucket not yet used in the new table. */
  method NextFree<V>(ghost f: array<bv32>, g: array<bv32>, ghost keys: array<Key>, ghost vals: array<V>,
                     key: Key, m: nat, ghost ov: seq<Bucket<V>>, ghost nv: seq<Bucket<V>>)
    returns (i: nat)
    requires m == |nv| && PowerOfTwo(m) && |UsedSet(nv)| < m
    requires Mixed(f, g, keys, vals, ov, nv)
    ensures i < m && nv[i].Empty? && Reachable(nv, Hash(key), i)
  {
    hide Hash, Probe, F.EmptyBit, F.DelBit, F.EitherBit, F.Shift;
    var k := HashString(key);
    ghost var e := FirstEmpty(nv, k);
    var step := 0;
    i := k % m;
    ProbeStart(k, m);
    assert SlotMixed(f, g, keys, vals, ov, nv, i);
    while !F.IsEmpty(g, i)
      invariant step <= e && i == Probe(k, step, m) && SlotMixed(f, g, keys, vals, ov, nv, i)
      decreases e - step
    {
      ProbeNext(k, step, m);
      step := step + 1;
      i := (i + step) % m;
    }
    assert PathUsed(nv, k, step);
  }

  /** One turn of the kick-out loop at the free new bucket i: the entry in hand moves in, and an entry
      of the old table that still lives there comes out. */
  method Settle<V>(f: array<bv32>, g: array<bv32>, keys: array<Key>, vals: array<V>, n: nat, i: nat, key: Key, val: V,
                   ghost ov: seq<Bucket<V>>, ghost nv: seq<Bucket<V>>)
    returns (kicked: bool, key': Key, val': V)
    requires |ov| == n && i < |nv| && nv[i].Empty? && Mixed(f, g, keys, vals, ov, nv)
    modifies f, g, keys, vals
    ensures kicked <==> i < n && ov[i].Live?
    ensures kicked ==> key' == ov[i].key && val' == ov[i].val
    ensures Mixed(f, g, keys, vals, if kicked then ov[i := Deleted] else ov, nv[i := Live(key, val)])
  {
    hide F.EmptyBit, F.DelBit, F.EitherBit, F.Shift;
    assert SlotMixed(f, g, keys, vals, ov, nv, i);
    F.SetIsEmptyFalse(g, i);
    kicked := i < n && !F.IsEither(f, i);
    key', val' := key, val;
    if kicked {
      key' := keys[i];
      keys[i] := key;
      val' := vals[i];
      vals[i] := val;
      F.SetIsDelTrue(f, i);
    } else {
      keys[i] := key;
      vals[i] := val;
    }
    ghost var ov' := if kicked then ov[i := Deleted] else ov;
    ghost var nv' := nv[i := Live(key, val)];
    forall j: nat
      ensures SlotMixed(f, g, keys, vals, ov', nv', j)
    {
      assert old(SlotMixed(f, g, keys, vals, ov, nv, j));
    }
  }

  /** The kick-out loop: moves the entry in hand to its new bucket, and then whatever it displaced. */
  method KickOut<V>(f: array<bv32>, g: array<bv32>, keys: array<Key>, vals: array<V>, n: nat, m: nat,
                    key0: Key, val0: V,
                    ghost ov0: seq<Bucket<V>>, ghost nv0: seq<Bucket<V>>, ghost all: map<Key, V>, ghost size: nat)
    returns (ghost ov: seq<Bucket<V>>, ghost nv: seq<Bucket<V>>)
    requires |ov0| == n && |nv0| == m && size <= m
    requires Rehashing(ov0, nv0, Carry(key0, val0), all, size)
    requires Mixed(f, g, keys, vals, ov0, nv0)
    modifies f, g, keys, vals
    ensures |ov| == n && |nv| == m
    ensures Rehashing(ov, nv, Nothing, all, size)
    ensures Mixed(f, g, keys, vals, ov, nv)
    ensures forall i :: 0 <= i < n && ov[i].Live? ==> ov0[i].Live?
  {
    hide Hash, Probe, Rehashing, Reachable, SlotMixed, F.IsEmpty, F.IsDel, F.IsEither;
    ov, nv := ov0, nv0;
    var key, val := key0, val0;
    var kicked := true;
    while kicked
      invariant |ov| == n && |nv| == m
      invariant Rehashing(ov, nv, if kicked then Carry(key, val) else Nothing, all, size)
      invariant Mixed(f, g, keys, vals, ov, nv)
      invariant forall i :: 0 <= i < n && ov[i].Live? ==> ov0[i].Live?
      decreases kicked, |LiveSet(ov)|
    {
      RehashingFacts(ov, nv, key, val, all, size);
      var i := NextFree(f, g, keys, vals, key, m, ov, nv);
      PutDown(ov, nv, key, val, i, all, size);
      ghost var nv' := nv[i := Live(key, val)];
      kicked, key, val := Settle(f, g, keys, vals, n, i, key, val, ov, nv);
      if kicked {
        PickUp(ov, nv', i, all, size);
        ov := ov[i := Deleted];
      }
      nv := nv';
    }
  }

  /** realloc: a block of n elements that keeps the common prefix. */
  method Realloc<T(0)>(a: array<T>, n: nat) returns (b: array<T>)
    ensures fresh(b) && b.Length == n
    ensures forall i :: 0 <= i < n && i < a.Length ==> b[i] == a[i]
  {
    b := new T[n];
    var kept := if n < a.Length then n else a.Length;
    forall i | 0 <= i < kept {
      b[i] := a[i];
    }
  }

  /** Both arrays change their length to m and still store t. */
  method ReallocBoth<V(0)>(f: array<bv32>, keys: array<Key>, vals: array<V>, m: nat, ghost t: seq<Bucket<V>>)
    returns (ks: array<Key>, vs: array<V>)
    requires Apart(f, keys, vals) && Stores(f, keys, vals, t) && |t| <= m
    ensures fresh(ks) && fresh(vs) && ks.Length == m && vs.Length == m
    ensures Apart(f, ks, vs) && Stores(f, ks, vs, t)
  {
    hide F.IsEmpty, F.IsDel;
    ks := Realloc(keys, m);
    vs := Realloc(vals, m);
    forall i: nat | i < |t|
      ensures SlotStored(f, ks, vs, t, i)
    {
      assert old(SlotStored(f, keys, vals, t, i));
    }
  }

  lemma MixedStarts<V>(f: array<bv32>, g: array<bv32>, keys: array<Key>, vals: array<V>, ov: seq<Bucket<V>>, m: nat)
    requires f != g && Apart(f, keys, vals) && Apart(g, keys, vals)
    requires Stores(f, keys, vals, ov) && Fits(g, keys, vals, m)
    requires forall i: nat | i / 16 < g.Length :: F.IsEmpty(g, i) && !F.IsDel(g, i)
    ensures Mixed(f, g, keys, vals, ov, seq(m, _ => Empty))
  {
    var nv := seq(m, _ => Empty);
    forall i: nat
      ensures SlotMixed(f, g, keys, vals, ov, nv, i)
    {
      assert i < |ov| ==> SlotStored(f, keys, vals, ov, i);
    }
  }

  /** The scan of the rehash: every live old bucket is emptied into the new table. */
  method MoveAll<V>(f: array<bv32>, g: array<bv32>, keys: array<Key>, vals: array<V>, n: nat, m: nat,
                    ghost ov0: seq<Bucket<V>>)
    returns (ghost nv: seq<Bucket<V>>)
    requires |ov0| == n && DistinctKeys(ov0) && PowerOfTwo(m) && |LiveSet(ov0)| <= m
    requires Mixed(f, g, keys, vals, ov0, seq(m, _ => Empty))
    modifies f, g, keys, vals
    ensures |nv| == m && WellFormed(nv) && Contents(nv) == Contents(ov0)
    ensures |LiveSet(nv)| == |LiveSet(ov0)| && |UsedSet(nv)| == |LiveSet(ov0)|
    ensures Stores(g, keys, vals, nv)
  {
    hide Hash, Probe, Rehashing, Reachable, Contents, WellFormed, F.EmptyBit, F.DelBit, F.EitherBit, F.Shift;
    ghost var all, size := Contents(ov0), |LiveSet(ov0)|;
    ghost var ov := ov0;
    nv := seq(m, _ => Empty);
    RehashStarts(ov, nv);
    for j := 0 to n
      invariant |ov| == n && |nv| == m
      invariant Rehashing(ov, nv, Nothing, all, size)
      invariant Mixed(f, g, keys, vals, ov, nv)
      invariant forall i :: 0 <= i < j ==> !ov[i].Live?
    {
      assert SlotMixed(f, g, keys, vals, ov, nv, j);
      if !F.IsEither(f, j) {
        var key, val := keys[j], vals[j];
        PickUp(ov, nv, j, all, size);
        label Before:
        F.SetIsDelTrue(f, j);
        ghost var ov' := ov[j := Deleted];
        forall i: nat
          ensures SlotMixed(f, g, keys, vals, ov', nv, i)
        {
          assert old@Before(SlotMixed(f, g, keys, vals, ov, nv, i));
        }
        ov, nv := KickOut(f, g, keys, vals, n, m, key, val, ov', nv, all, size);
      }
    }
    RehashEnds(ov, nv, all, size);
    forall i: nat | i < m
      ensures SlotStored(g, keys, vals, nv, i)
    {
      assert SlotMixed(f, g, keys, vals, ov, nv, i);
    }
  }

  class HashTable<V(0)> {
    var nBuckets: nat
    var size: nat
    var nOccupied: nat
    var upperBound: nat
    var flags: array<bv32>
    var keys: array<Key>
    var vals: array<V>

    /** The bucket sequence that the three arrays store. */
    ghost var view: seq<Bucket<V>>

    ghost function Repr(): set<object>
      reads this
    {
      {this, flags, keys, vals}
    }

    ghost predicate Shape()
      reads this
    {
      && |view| == nBuckets
      && (nBuckets == 0 ==> upperBound == 0)
      && (nBuckets > 0 ==> 4 <= nBuckets <= MAX_BUCKETS && WellFormed(view) && upperBound == UpperBound(nBuckets))
      && size == |LiveSet(view)| && nOccupied == |UsedSet(view)| && nOccupied <= upperBound
    }

    ghost predicate Valid()
      reads this, flags, keys, vals
    {
      && Apart(flags, keys, vals)
      && Shape()
      && Stores(flags, keys, vals, view)
    }

    /** The finite map the table stands for. */
    ghost function Map(): map<Key, V>
      reads this
      requires Shape()
    {
      Contents(view)
    }

    constructor ()
      ensures Valid() && fresh(Repr()) && Map() == map[] && size == 0 && nBuckets == 0
    {
      nBuckets, size, nOccupied, upperBound := 0, 0, 0, 0;
      flags := new bv32[0];
      keys := new Key[0];
      vals := new V[0];
      view := [];
      new;
      assert LiveSet(view) == {} && UsedSet(view) == {};
    }

    lemma SizeIsMapSize()
      requires Shape()
      ensures size == |Map()|
    {
      ContentsSize(view);
    }

    lemma HasRoom()
      requires Shape() && nBuckets > 0
      ensures |UsedSet(view)| < |view|
    {
      CapacityIsDivisible(nBuckets);
      UpperBoundExact(nBuckets);
    }

    /** The bucket of the key, or nBuckets when the key is absent. */
    method Get(key: Key) returns (x: nat)
      requires Valid()
      ensures key in Map() ==> x < nBuckets && view[x] == Live(key, Map()[key])
      ensures key !in Map() ==> x == nBuckets
    {
      hide Hash, Probe, UpperBound, Reachable, F.EmptyBit, F.DelBit, F.EitherBit, F.Shift;
      if nBuckets == 0 { return 0; }
      HasRoom();
      var k := HashString(key);
      ghost var e := FirstEmpty(view, k);
      var step := 0;
      var i := k % nBuckets;
      ProbeStart(k, nBuckets);
      var last := i;
      assert SlotStored(flags, keys, vals, view, i);
      while !F.IsEmpty(flags, i) && (F.IsDel(flags, i) || keys[i] != key)
        invariant step <= e && i == Probe(k, step, nBuckets) && SlotStored(flags, keys, vals, view, i)
        invariant NotMet(view, key, step)
        decreases e - step
      {
        ProbeNext(k, step, nBuckets);
        step := step + 1;
        i := (i + step) % nBuckets;
        if i == last { assert false; return nBuckets; }
      }
      if F.IsEither(flags, i) {
        x := nBuckets;
        AbsentWhenPathEnds(view, key, step);
      } else {
        x := i;
      }
    }

    /** Rehashes in place into the capacity chosen for the requested number of buckets, unless that
        capacity is too small for the entries. */
    method Resize(requested: nat)
      requires Valid() && requested < WORD
      modifies Repr()
      ensures Valid() && fresh(Repr() - old(Repr()))
      ensures Map() == old(Map()) && size == old(size)
      ensures size < UpperBound(NewCapacity(requested)) ==> nBuckets == NewCapacity(requested) && nOccupied == size
      ensures size >= UpperBound(NewCapacity(requested)) ==> view == old(view) && nBuckets == old(nBuckets)
    {
      hide Hash, Contents, Reachable, RoundUp32, UpperBound;
      var m := RoundUp32(requested);
      if m < 4 { m := 4; }
      NewCapacityIsPower(requested);
      if size >= UpperBound(m) { return; }
      CapacityIsDivisible(m);
      UpperBoundExact(m);
      Rebuild(m);
    }

    /** The rehash proper, from the allocation of the new flags on. */
    method Rebuild(m: nat)
      requires Valid() && PowerOfTwo(m) && 4 <= m <= MAX_BUCKETS && size < UpperBound(m) < m
      modifies Repr()
      ensures Valid() && fresh(Repr() - old(Repr()))
      ensures Map() == old(Map()) && size == old(size) && nBuckets == m && nOccupied == size
    {
      hide Hash, Contents, Reachable, RoundUp32, UpperBound, WellFormed, Stores, Mixed, F.IsEmpty, F.IsDel;
      assert DistinctKeys(view) by { EmptyIsWellFormed(); }
      ghost var t := view;
      var newFlags := F.NewFlags(m);
      WordsCover(m);
      var ks, vs := keys, vals;
      assert Fits(flags, ks, vs, nBuckets) by { StoresFits(flags, ks, vs, t); }
      if nBuckets < m {
        ks, vs := ReallocBoth(flags, ks, vs, m, t);
      }
      MixedStarts(flags, newFlags, ks, vs, t, m);
      ghost var nv := MoveAll(flags, newFlags, ks, vs, nBuckets, m, t);
      if nBuckets > m {
        ks, vs := ReallocBoth(newFlags, ks, vs, m, nv);
      }
      Install(newFlags, ks, vs, m, nv);
    }

    method Install(newFlags: array<bv32>, ks: array<Key>, vs: array<V>, m: nat, ghost nv: seq<Bucket<V>>)
      requires Apart(newFlags, ks, vs) && Stores(newFlags, ks, vs, nv)
      requires |nv| == m && 4 <= m <= MAX_BUCKETS && WellFormed(nv)
      requires |LiveSet(nv)| == size && |UsedSet(nv)| == size && size < UpperBound(m)
      modifies this
      ensures Valid() && view == nv && size == old(size) && nBuckets == m && nOccupied == size
      ensures flags == newFlags && keys == ks && vals == vs
    {
      hide Hash, Contents, Reachable, UpperBound, WellFormed, Stores;
      keys, vals, flags := ks, vs, newFlags;
      nBuckets := m;
      nOccupied := size;
      upperBound := UpperBound(m);
      view := nv;
    }

    lemma BelowLimit()
      requires Shape() && nOccupied < upperBound
      ensures nBuckets > 0
    {}

    lemma EmptyIsWellFormed()
      requires Shape()
      ensures DistinctKeys(view)
    {}

    /** The bucket kh_put chooses: where the key lives, or else the last deleted bucket on the probe
        path, or else the empty bucket that ends it. */
    ghost predicate Chosen(key: Key, x: nat)
      reads this
      requires Shape() && nBuckets > 0
    {
      && x < nBuckets
      && (key in Map() ==> view[x] == Live(key, Map()[key]))
      && (key !in Map() ==> InsertionPoint(view, Hash(key), x))
    }

    method FindSlot(key: Key) returns (x: nat)
      requires Valid() && nBuckets > 0
      ensures Chosen(key, x)
    {
      hide Hash, Probe, Contents, Remembers, InsertionPoint, Stores, F.IsEmpty, F.IsDel;
      HasRoom();
      var k := HashString(key);
      ghost var e := FirstEmpty(view, k);
      var i := k % nBuckets;
      var site: nat := nBuckets;
      ghost var step: nat, siteStep: nat := 0, 0;
      RemembersNothing(view, k);
      ProbeStart(k, nBuckets);
      StoresSlot(flags, keys, vals, view, i);
      x := nBuckets;
      if F.IsEmpty(flags, i) {
        x := i;
      } else {
        i, site, step, siteStep := Walk(key, k, e);
        if F.IsEmpty(flags, i) && site != nBuckets { x := site; } else { x := i; }
      }
      if F.IsEmpty(flags, i) {
        AbsentWhenPathEnds(view, key, step);
        assert step == e;
        RememberedPoint(view, k, site, siteStep, e);
        InsertionPointNotLive(view, k, x);
      } else {
        assert view[x].Live? && view[x].key == key;
      }
    }

    /** The search loop of kh_put: stops at the key or at the end of its path, remembering in site the
        last deleted bucket it passed. */
    method Walk(key: Key, k: nat, ghost e: nat) returns (i: nat, site: nat, ghost step: nat, ghost siteStep: nat)
      requires Valid() && nBuckets > 0 && k == Hash(key)
      requires e < nBuckets && view[Probe(k, e, nBuckets)].Empty?
      ensures step <= e && i == Probe(k, step, nBuckets) && SlotStored(flags, keys, vals, view, i)
      ensures NotMet(view, key, step) && Remembers(view, k, site, siteStep, step)
      ensures view[i].Empty? || (view[i].Live? && view[i].key == key)
    {
      hide Hash, Probe, Contents, Remembers, UpperBound, Reachable, Stores, LiveSet, UsedSet, F.IsEmpty, F.IsDel;
      step, siteStep := 0, 0;
      site := nBuckets;
      i := k % nBuckets;
      var last := i;
      var s := 0;
      RemembersNothing(view, k);
      ProbeStart(k, nBuckets);
      StoresSlot(flags, keys, vals, view, i);
      while !F.IsEmpty(flags, i) && (F.IsDel(flags, i) || keys[i] != key)
        invariant s == step <= e && i == Probe(k, step, nBuckets) && SlotStored(flags, keys, vals, view, i)
        invariant NotMet(view, key, step)
        invariant Remembers(view, k, site, siteStep, step)
        decreases e - step
      {
        RemembersNext(view, k, site, siteStep, step);
        if F.IsDel(flags, i) { site, siteStep := i, step; }
        ProbeNext(k, step, nBuckets);
        s, step := s + 1, step + 1;
        i := (i + s) % nBuckets;
        StoresSlot(flags, keys, vals, view, i);
        if i == last { assert false; break; }
      }
    }

    /** Makes sure the key has a bucket; the value of a new bucket is whatever the array holds. */
    method Put(key: Key) returns (x: nat, ret: PutResult)
      requires Valid() && (nOccupied >= upperBound ==> !AtWordLimit())
      modifies Repr()
      ensures Valid() && fresh(Repr() - old(Repr()))
      ensures x < nBuckets && view[x] == Live(key, vals[x])
      ensures Map() == old(Map())[key := vals[x]]
      ensures ret == Present <==> key in old(Map())
      ensures ret == Present ==> vals[x] == old(Map())[key]
      ensures size == old(size) + if ret == Present then 0 else 1
      ensures nBuckets == old(nBuckets)
              || (old(nBuckets) == 0 && nBuckets == 4)
              || (nBuckets == 2 * old(nBuckets) <= 4 * old(size))
    {
      hide Hash, Contents, Shape, Stores, Chosen;
      if nOccupied >= upperBound {
        MakeRoom();
      }
      BelowLimit();
      x := FindSlot(key);
      ret := Claim(key, x);
    }

    /** The end of kh_put: the chosen bucket is taken unless it already holds the key. */
    method Claim(key: Key, x: nat) returns (ret: PutResult)
      requires Valid() && nBuckets > 0 && nOccupied < upperBound && Chosen(key, x)
      modifies this`size, this`nOccupied, this`view, flags, keys
      ensures Valid()
      ensures x < nBuckets && view[x] == Live(key, vals[x])
      ensures Map() == old(Map())[key := vals[x]]
      ensures ret == Present <==> key in old(Map())
      ensures ret == Present ==> vals[x] == old(Map())[key]
      ensures size == old(size) + if ret == Present then 0 else 1
    {
      hide Hash, Contents, Reachable, UpperBound, WellFormed, Stores, InsertionPoint, LiveSet, UsedSet, F.IsEmpty,
           F.IsDel;
      ghost var t := view;
      StoresSlot(flags, keys, vals, t, x);
      ghost var v := vals[x];
      if F.IsEmpty(flags, x) {
        Occupy(flags, keys, vals, x, key, t);
        size := size + 1;
        nOccupied := nOccupied + 1;
        ret := NewBucket;
      } else if F.IsDel(flags, x) {
        Occupy(flags, keys, vals, x, key, t);
        size := size + 1;
        ret := ReusedBucket;
      } else {
        ret := Present;
      }
      if ret != Present {
        InsertAtPoint(t, key, v, x);
        view := t[x := Live(key, v)];
      } else {
        if key !in Map() { InsertionPointNotLive(t, Hash(key), x); }
        assert t[x] == Live(key, v);
      }
    }

    /** No room for twice as many buckets in a 32-bit word, and no deleted buckets worth clearing. */
    predicate AtWordLimit()
      reads this
    {
      nBuckets > MAX_BUCKETS / 2 && nBuckets <= 2 * size
    }

    lemma LoadIsLow()
      requires Shape()
      ensures if nBuckets == 0 then size == 0 else size < nBuckets && PowerOfTwo(nBuckets)
    {
      hide Hash, Contents, UpperBound;
      LiveIsUsed(view);
      if nBuckets > 0 {
        CapacityIsDivisible(nBuckets);
        UpperBoundExact(nBuckets);
      }
    }

    /** What kh_put does to a table at its load limit: clear the deleted buckets, or double.  The request for
        more than 2^31 buckets wraps to 0, and nothing happens. */
    method MakeRoom()
      requires Valid() && nOccupied >= upperBound
      modifies Repr()
      ensures Valid() && fresh(Repr() - old(Repr()))
      ensures Map() == old(Map()) && size == old(size)
      ensures old(AtWordLimit()) ==> view == old(view) && nBuckets == old(nBuckets)
      ensures !old(AtWordLimit()) ==> nOccupied < upperBound && nBuckets > 0
      ensures nBuckets == old(nBuckets)
              || (old(nBuckets) == 0 && nBuckets == 4)
              || (nBuckets == 2 * old(nBuckets) <= 4 * old(size))
    {
      hide Hash, Contents, NewCapacity, UpperBound, Stores;
      LoadIsLow();
      RoomToGrow(nBuckets, size);
      if nBuckets > 2 * size {
        Resize(nBuckets - 1);
      } else {
        Resize(nBuckets + 1);
      }
    }

    /** kh_exist(h, x) */
    method Exists(x: nat) returns (live: bool)
      requires Valid() && x < nBuckets
      ensures live <==> view[x].Live?
    {
      hide Hash, Contents, Reachable, WellFormed, F.EmptyBit, F.DelBit, F.EitherBit, F.Shift;
      StoresSlot(flags, keys, vals, view, x);
      live := !F.IsEither(flags, x);
    }

    /** kh_value(h, x) */
    method Value(x: nat) returns (v: V)
      requires Valid() && x < nBuckets && view[x].Live?
      ensures v == view[x].val
    {
      StoresSlot(flags, keys, vals, view, x);
      v := vals[x];
    }

    /** kh_value(h, x) = v */
    method SetValue(x: nat, v: V)
      requires Valid() && x < nBuckets && view[x].Live?
      modifies this, vals
      ensures Valid() && Repr() == old(Repr())
      ensures Map() == old(Map())[old(view[x].key) := v] && size == old(size) && nBuckets == old(nBuckets)
    {
      hide Hash, Contents, Reachable, UpperBound, F.EmptyBit, F.DelBit, F.EitherBit, F.Shift;
      ChangeValue(view, x, v);
      vals[x] := v;
      view := view[x := Live(view[x].key, v)];
      forall i: nat | i < |view|
        ensures SlotStored(flags, keys, vals, view, i)
      {
        assert old(SlotStored(flags, keys, vals, view, i));
      }
    }

    /** kh_del: marks a live bucket as deleted; anything else, and nBuckets itself, is left alone. */
    method Delete(x: nat)
      requires Valid() && x <= nBuckets
      modifies this, flags
      ensures Valid() && Repr() == old(Repr()) && nBuckets == old(nBuckets)
      ensures x < nBuckets && old(view)[x].Live? ==>
                Map() == old(Map()) - {old(view)[x].key} && size == old(size) - 1
      ensures !(x < nBuckets && old(view)[x].Live?) ==> view == old(view) && Map() == old(Map()) && size == old(size)
    {
      hide Hash, Contents, Reachable, UpperBound, F.EmptyBit, F.DelBit, F.EitherBit, F.Shift;
      assert x < nBuckets ==> SlotStored(flags, keys, vals, view, x);
      if x != nBuckets && !F.IsEither(flags, x) {
        DeleteBucket(view, x);
        assert x in LiveSet(view);
        MarkDeleted(flags, keys, vals, x, view);
        size := size - 1;
        view := view[x := Deleted];
      }
    }
  }
}
