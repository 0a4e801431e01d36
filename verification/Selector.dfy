/**
  The table of the I/O multiplexer: one item per file descriptor, and the descriptor sets and the highest
  descriptor that index it for select.
 */
module Selector {
  import opened Probing
  import opened Sockets

  const FD_SETSIZE: nat := 1024
  const ITEMS_MAX_SIZE: nat := FD_SETSIZE
  const FD_UNUSED: int := -1

  datatype Status = SELECTOR_SUCCESS | SELECTOR_MAXFD | SELECTOR_IARGS | SELECTOR_FDINUSE

  /** Whose callbacks an item has. */
  datatype Handler = NO_HANDLER | CLIENT_HANDLER | SERVER_HANDLER | OTHER_HANDLER

  type Pointer = nat
  const NULL: Pointer := 0

  datatype Item = Item(fd: int, interest: Interest, handler: Handler, data: Pointer) {
    predicate Used() { fd != FD_UNUSED }
  }

  const UNUSED := Item(FD_UNUSED, OP_NOOP, NO_HANDLER, NULL)

  datatype Table = Table(fds: seq<Item>, maxFd: nat, masterR: set<int>, masterW: set<int>)

  predicate InvalidFd(fd: int) { fd < 0 || fd >= ITEMS_MAX_SIZE }

  // ---------------------------------------------------------------- capacity

  /** The number of bits that a number takes. */
  function Bits(n: nat): nat {
    if n == 0 then 0 else 1 + Bits(n / 2)
  }

  function NextCapacity(n: nat): (c: nat) {
    (if Pow2(Bits(n)) > ITEMS_MAX_SIZE then ITEMS_MAX_SIZE else Pow2(Bits(n))) + 1
  }

  lemma {:induction false} BitsBound(n: nat)
    ensures n < Pow2(Bits(n)) && (n > 0 ==> Pow2(Bits(n)) <= 2 * n)
    decreases n
  {
    if n > 0 { BitsBound(n / 2); }
  }

  /** Growing for a descriptor that the platform supports makes room for it, within what the platform supports. */
  lemma CapacitySuffices(n: nat)
    requires n <= ITEMS_MAX_SIZE
    ensures n < NextCapacity(n) <= ITEMS_MAX_SIZE + 1
  {
    BitsBound(n);
  }

  /** Exactly: one more than the least power of two above n, or than the limit where that is less. */
  lemma NextCapacityIsTight(n: nat)
    ensures var c := NextCapacity(n) - 1;
            if c == 1024 then n < 1024 ==> 512 <= n
            else c < 1024 && PowerOfTwo(c) && n < c && (n > 0 ==> c <= 2 * n)
  {
    BitsBound(n);
    if n < 1024 { PowersTo1024(Bits(n)); }
  }

  lemma PowersTo1024(e: nat)
    requires Pow2(e) <= 2048
    ensures Pow2(e) > 1024 ==> Pow2(e) == 2048
    ensures e <= 11
  {
    assert Pow2(11) == 2048 && Pow2(10) == 1024;
    if e > 11 { PowGrows(11, e); } else if e < 10 { PowGrows(e, 10); }
  }

  lemma {:induction false} PowGrows(a: nat, b: nat)
    requires a <= b
    ensures Pow2(a) <= Pow2(b) && (a < b ==> 2 * Pow2(a) <= Pow2(b))
    decreases b
  {
    if a < b { PowGrows(a, b - 1); }
  }

  /** selector_new(1024), the only table of the server, has room for every descriptor that select supports. */
  lemma ServerCapacity()
    ensures NextCapacity(1024) == 1025
  {
    BitsBound(1024);
  }

  method ComputeNextCapacity(n: nat) returns (capacity: nat)
    ensures capacity == NextCapacity(n)
  {
    var bits: nat, tmp: nat := 0, n;
    while tmp != 0
      invariant bits + Bits(tmp) == Bits(n)
    {
      tmp := tmp / 2;
      bits := bits + 1;
    }
    tmp := Pow2(bits);
    if tmp > ITEMS_MAX_SIZE {
      tmp := ITEMS_MAX_SIZE;
    }
    capacity := tmp + 1;
  }

  // ---------------------------------------------------------------- the table on values

  /** The highest descriptor in use among the first n items, or zero. */
  function HighestUsed(fds: seq<Item>, n: nat): (m: nat)
    requires n <= |fds|
  {
    if n == 0 then 0
    else
      var rest := HighestUsed(fds, n - 1);
      if fds[n - 1].Used() && fds[n - 1].fd > rest then fds[n - 1].fd else rest
  }

  /** The index: each used item stands at its descriptor, and the sets hold exactly the live interests. */
  ghost predicate Indexed(t: Table) {
    && t.maxFd < |t.fds| && (t.maxFd > 0 ==> t.fds[t.maxFd].Used())
    && (forall i :: 0 <= i < |t.fds| && t.fds[i].Used() ==> t.fds[i].fd == i && i <= t.maxFd && i < ITEMS_MAX_SIZE)
    && (forall i :: i in t.masterR <==> 0 <= i < |t.fds| && t.fds[i].Used() && t.fds[i].interest.read)
    && (forall i :: i in t.masterW <==> 0 <= i < |t.fds| && t.fds[i].Used() && t.fds[i].interest.write)
  }

  predicate IsUsed(t: Table, fd: int) { 0 <= fd < |t.fds| && t.fds[fd].Used() }

  function NewTable(n: nat): Table { Table(seq(n, _ => UNUSED), 0, {}, {}) }

  /** ensure_capacity; memory is there. */
  function EnsureCapacity(t: Table, n: nat): (Table, Status) {
    if n < |t.fds| then (t, SELECTOR_SUCCESS)
    else if n > ITEMS_MAX_SIZE then (t, SELECTOR_MAXFD)
    else (t.(fds := t.fds + seq(if NextCapacity(n) > |t.fds| then NextCapacity(n) - |t.fds| else 0, _ => UNUSED)),
          SELECTOR_SUCCESS)
  }

  /** items_update_fdset_for_fd */
  function UpdateSets(t: Table, fd: int, interest: Interest): Table {
    t.(masterR := if interest.read then t.masterR + {fd} else t.masterR - {fd},
       masterW := if interest.write then t.masterW + {fd} else t.masterW - {fd})
  }

  /** The item of a new descriptor is stored, and the index follows. */
  function Store(t: Table, fd: nat, interest: Interest, handler: Handler, data: Pointer): Table
    requires fd < |t.fds|
  {
    UpdateSets(t.(fds := t.fds[fd := Item(fd, interest, handler, data)], maxFd := if fd > t.maxFd then fd else t.maxFd),
               fd, interest)
  }

  /** The table in which selector_register looks up a descriptor. */
  function Enlarged(t: Table, fd: nat): (Table, Status) {
    if fd > |t.fds| then EnsureCapacity(t, fd) else (t, SELECTOR_SUCCESS)
  }

  /**
    selector_register.  The source grows the table only for a descriptor beyond its size, so it must not be
    asked for the one right at its size.
   */
  function Register(t: Table, fd: int, interest: Interest, handler: Handler, data: Pointer): (r: (Table, Status))
    requires fd != |t.fds|
  {
    if InvalidFd(fd) || handler.NO_HANDLER? then (t, SELECTOR_IARGS)
    else
      var (g, status) := Enlarged(t, fd);
      if status != SELECTOR_SUCCESS || fd >= |g.fds| then (g, status)
      else if g.fds[fd].Used() then (g, SELECTOR_FDINUSE)
      else (Store(g, fd, interest, handler, data), SELECTOR_SUCCESS)
  }

  /** The last part of selector_unregister_fd, after the close callback. */
  function Clear(t: Table, fd: int): Table
    requires IsUsed(t, fd)
  {
    var fds := t.fds[fd := UNUSED];
    UpdateSets(t.(fds := fds, maxFd := HighestUsed(fds, if t.maxFd < |fds| then t.maxFd + 1 else |fds|)), fd, OP_NOOP)
  }

  /** selector_set_interest */
  function SetInterest(t: Table, fd: int, i: Interest): (Table, Status) {
    if InvalidFd(fd) || !IsUsed(t, fd) then (t, SELECTOR_IARGS)
    else (UpdateSets(t.(fds := t.fds[fd := t.fds[fd].(interest := i)]), fd, i), SELECTOR_SUCCESS)
  }

  function With(a: Interest, b: Interest): Interest { Interest(a.read || b.read, a.write || b.write) }

  function Without(a: Interest, b: Interest): Interest { Interest(a.read && !b.read, a.write && !b.write) }

  /** selector_add_interest */
  function AddInterest(t: Table, fd: int, i: Interest): (Table, Status) {
    if InvalidFd(fd) || !IsUsed(t, fd) then (t, SELECTOR_IARGS) else SetInterest(t, fd, With(t.fds[fd].interest, i))
  }

  /** selector_remove_interest */
  function RemoveInterest(t: Table, fd: int, i: Interest): (Table, Status) {
    if InvalidFd(fd) || !IsUsed(t, fd) then (t, SELECTOR_IARGS) else SetInterest(t, fd, Without(t.fds[fd].interest, i))
  }

  /**
    The comparison with the size is off by one: the lookup is within the table, after it has grown, for every
    valid descriptor except the one equal to its size.  In the server's table that one is not valid.
   */
  lemma LookupInBoundsExactly(t: Table, fd: int)
    requires !InvalidFd(fd)
    ensures fd < |Enlarged(t, fd).0.fds| <==> fd != |t.fds|
  {
    CapacitySuffices(fd);
  }

  // ---------------------------------------------------------------- every operation keeps the index

  lemma {:induction false} HighestUsedBounds(fds: seq<Item>, n: nat)
    requires n <= |fds| && forall i :: 0 <= i < n && fds[i].Used() ==> fds[i].fd == i
    ensures var m := HighestUsed(fds, n);
            && (forall i :: 0 <= i < n && fds[i].Used() ==> i <= m)
            && (m > 0 ==> m < n && fds[m].Used())
  {
    if n > 0 { HighestUsedBounds(fds, n - 1); }
  }

  lemma EnsureCapacityIndexed(t: Table, n: nat)
    requires Indexed(t)
    ensures Indexed(EnsureCapacity(t, n).0)
  {}

  /** Every item is kept as the table grows, and the new ones are unused; it does so for every supported descriptor. */
  lemma EnsureCapacityKeeps(t: Table, n: nat)
    ensures var (u, status) := EnsureCapacity(t, n);
            && t.fds <= u.fds && u.maxFd == t.maxFd && u.masterR == t.masterR && u.masterW == t.masterW
            && (forall i :: |t.fds| <= i < |u.fds| ==> !u.fds[i].Used())
            && (status == SELECTOR_SUCCESS <==> n < |t.fds| || n <= 1024)
            && (status == SELECTOR_SUCCESS ==> n < |u.fds|)
            && (status != SELECTOR_SUCCESS ==> status == SELECTOR_MAXFD && u == t)
  {
    hide NextCapacity;
    if n <= ITEMS_MAX_SIZE { CapacitySuffices(n); }
  }

  /** Every item except one is as it was. */
  ghost predicate OthersKept(t: Table, u: Table, fd: int) {
    && (forall i :: 0 <= i < |t.fds| && i != fd ==> i < |u.fds| && u.fds[i] == t.fds[i])
    && (forall i :: |t.fds| <= i < |u.fds| && i != fd ==> !u.fds[i].Used())
    && (forall i :: i != fd ==> (i in u.masterR <==> i in t.masterR) && (i in u.masterW <==> i in t.masterW))
  }

  lemma StoreIndexed(t: Table, fd: nat, interest: Interest, handler: Handler, data: Pointer)
    requires Indexed(t) && fd < |t.fds| && fd < ITEMS_MAX_SIZE && !t.fds[fd].Used()
    ensures Indexed(Store(t, fd, interest, handler, data))
  {}

  lemma NothingChanged(t: Table)
    ensures OthersKept(t, t, -1)
  {}

  lemma StoreKeepsOthers(t: Table, fd: nat, interest: Interest, handler: Handler, data: Pointer)
    requires fd < |t.fds|
    ensures var r := Store(t, fd, interest, handler, data);
            && OthersKept(t, r, fd) && |r.fds| == |t.fds| && r.fds[fd] == Item(fd, interest, handler, data)
            && (fd in r.masterR <==> interest.read) && (fd in r.masterW <==> interest.write)
  {}

  lemma GrowthKeepsOthers(t: Table, n: nat, fd: int)
    ensures OthersKept(t, EnsureCapacity(t, n).0, fd) && |t.fds| <= |EnsureCapacity(t, n).0.fds|
  {
    hide NextCapacity;
  }

  lemma GrownStoreKeepsOthers(t: Table, fd: nat, interest: Interest, handler: Handler, data: Pointer)
    requires fd < |EnsureCapacity(t, fd).0.fds|
    ensures OthersKept(t, Store(EnsureCapacity(t, fd).0, fd, interest, handler, data), fd)
  {
    hide NextCapacity;
  }

  /** Registration keeps the index; it succeeds exactly for a valid descriptor that is not in use. */
  lemma RegisterIndexed(t: Table, fd: int, interest: Interest, handler: Handler, data: Pointer)
    requires Indexed(t) && fd != |t.fds|
    ensures var (r, status) := Register(t, fd, interest, handler, data);
            && Indexed(r)
            && (status == SELECTOR_SUCCESS <==> 0 <= fd < 1024 && !handler.NO_HANDLER? && !IsUsed(t, fd))
            && (status == SELECTOR_SUCCESS ==>
                  && fd < |r.fds| && r.fds[fd] == Item(fd, interest, handler, data)
                  && (fd in r.masterR <==> interest.read) && (fd in r.masterW <==> interest.write))
            && OthersKept(t, r, if status == SELECTOR_SUCCESS then fd else -1)
  {
    hide EnsureCapacity, Store, Indexed, OthersKept;
    EnsureCapacityIndexed(t, if fd < 0 then 0 else fd);
    EnsureCapacityKeeps(t, if fd < 0 then 0 else fd);
    var (r, status) := Register(t, fd, interest, handler, data);
    var g := if fd > |t.fds| then EnsureCapacity(t, fd).0 else t;
    if status == SELECTOR_SUCCESS {
      StoreIndexed(g, fd, interest, handler, data);
      StoreKeepsOthers(g, fd, interest, handler, data);
    }
    NothingChanged(t);
    if fd > |t.fds| {
      if status == SELECTOR_SUCCESS { GrownStoreKeepsOthers(t, fd, interest, handler, data); }
      GrowthKeepsOthers(t, fd, -1);
    }
  }

  /** Why a registration is refused: its arguments, or a descriptor in use; there is always room for a valid one. */
  lemma RegisterRefused(t: Table, fd: int, interest: Interest, handler: Handler, data: Pointer)
    requires Indexed(t) && fd != |t.fds|
    ensures var status := Register(t, fd, interest, handler, data).1;
            && (status == SELECTOR_IARGS <==> fd < 0 || fd >= 1024 || handler.NO_HANDLER?)
            && (status == SELECTOR_FDINUSE <==> 0 <= fd < 1024 && !handler.NO_HANDLER? && IsUsed(t, fd))
  {
    RegisterIndexed(t, fd, interest, handler, data);
  }

  /** Clearing an item leaves the index tight: the highest descriptor is one in use, or zero. */
  lemma ClearIndexed(t: Table, fd: int)
    requires Indexed(t) && IsUsed(t, fd)
    ensures Indexed(Clear(t, fd)) && !IsUsed(Clear(t, fd), fd)
    ensures OthersKept(t, Clear(t, fd), fd) && |Clear(t, fd).fds| == |t.fds|
  {
    HighestUsedBounds(t.fds[fd := UNUSED], t.maxFd + 1);
  }

  lemma SetInterestIndexed(t: Table, fd: int, i: Interest)
    requires Indexed(t)
    ensures Indexed(SetInterest(t, fd, i).0)
  {}

  /** The sets watch the descriptor for just this; its item keeps its handler and data, and nothing else changes. */
  ghost predicate Watches(t: Table, u: Table, fd: int, read: bool, write: bool) {
    && (fd in u.masterR <==> read) && (fd in u.masterW <==> write)
    && |u.fds| == |t.fds| && u.maxFd == t.maxFd && OthersKept(t, u, fd)
    && (IsUsed(t, fd) ==>
          IsUsed(u, fd) && u.fds[fd] == Item(fd, Interest(read, write), t.fds[fd].handler, t.fds[fd].data))
  }

  lemma WatchedAsStored(t: Table, fd: int)
    requires Indexed(t) && IsUsed(t, fd)
    ensures t.fds[fd].interest == Interest(fd in t.masterR, fd in t.masterW)
  {}

  lemma SetInterestWatches(t: Table, fd: int, i: Interest)
    requires Indexed(t) && 0 <= fd < 1024 && IsUsed(t, fd)
    ensures Watches(t, SetInterest(t, fd, i).0, fd, i.read, i.write) && SetInterest(t, fd, i).1 == SELECTOR_SUCCESS
  {
    assert t.fds[fd].fd == fd;
  }

  /** What the three operations on interests do, in terms of the sets that select is given; a descriptor that is not
      valid and in use is refused and nothing changes. */
  lemma InterestsExactly(t: Table, fd: int, i: Interest)
    requires Indexed(t)
    ensures var r, w := fd in t.masterR, fd in t.masterW;
            if 0 <= fd < 1024 && IsUsed(t, fd) then
              && Watches(t, SetInterest(t, fd, i).0, fd, i.read, i.write)
              && Watches(t, AddInterest(t, fd, i).0, fd, r || i.read, w || i.write)
              && Watches(t, RemoveInterest(t, fd, i).0, fd, r && !i.read, w && !i.write)
              && SetInterest(t, fd, i).1 == AddInterest(t, fd, i).1 == RemoveInterest(t, fd, i).1 == SELECTOR_SUCCESS
            else
              SetInterest(t, fd, i) == AddInterest(t, fd, i) == RemoveInterest(t, fd, i) == (t, SELECTOR_IARGS)
  {
    if 0 <= fd < 1024 && IsUsed(t, fd) {
      hide SetInterest, Watches, Indexed;
      var item := t.fds[fd];
      WatchedAsStored(t, fd);
      SetInterestWatches(t, fd, i);
      SetInterestWatches(t, fd, With(item.interest, i));
      SetInterestWatches(t, fd, Without(item.interest, i));
    }
  }

  /** Removing an interest undoes adding it exactly when none of it was there before. */
  lemma InterestRoundTrip(t: Table, fd: int, i: Interest)
    requires Indexed(t) && IsUsed(t, fd)
    ensures RemoveInterest(AddInterest(t, fd, i).0, fd, i).0 == t <==>
            Without(t.fds[fd].interest, i) == t.fds[fd].interest
  {
    var a := AddInterest(t, fd, i).0;
    var b := RemoveInterest(a, fd, i).0;
    SetInterestIndexed(t, fd, With(t.fds[fd].interest, i));
    SetInterestIndexed(a, fd, Without(a.fds[fd].interest, i));
    assert b.fds[fd] == t.fds[fd].(interest := Without(t.fds[fd].interest, i));
    if Without(t.fds[fd].interest, i) == t.fds[fd].interest {
      assert b.fds == t.fds;
      assert b.masterR == t.masterR && b.masterW == t.masterW;
    }
  }

  // ---------------------------------------------------------------- the table in memory

  class FdSelector {
    var fds: array<Item>
    var max_fd: nat
    var master_r: set<int>
    var master_w: set<int>

    ghost function View(): Table
      reads this, fds
    {
      Table(fds[..], max_fd, master_r, master_w)
    }

    /** selector_new */
    constructor (initial_elements: nat)
      requires initial_elements <= ITEMS_MAX_SIZE
      ensures View() == NewTable(NextCapacity(initial_elements)) && fresh(fds)
    {
      var size := ComputeNextCapacity(initial_elements);
      fds := new Item[size](_ => UNUSED);
      max_fd, master_r, master_w := 0, {}, {};
    }

    method Ensure(n: nat) returns (status: Status)
      requires fds.Length <= ITEMS_MAX_SIZE + 1
      modifies this
      ensures (View(), status) == EnsureCapacity(old(View()), n)
      ensures fds == old(fds) || fresh(fds)
    {
      status := SELECTOR_SUCCESS;
      if n < fds.Length {
      } else if n > ITEMS_MAX_SIZE {
        status := SELECTOR_MAXFD;
      } else {
        CapacitySuffices(n);
        var size := ComputeNextCapacity(n);
        var tmp := new Item[size](_ => UNUSED);
        forall i | 0 <= i < fds.Length {
          tmp[i] := fds[i];
        }
        assert tmp[..] == fds[..] + seq(size - fds.Length, _ => UNUSED);
        fds := tmp;
        assert View().fds == EnsureCapacity(old(View()), n).0.fds;
      }
    }

    method UpdateFdset(fd: int)
      requires 0 <= fd < fds.Length && (fds[fd].Used() ==> fds[fd].fd == fd)
      modifies this`master_r, this`master_w
      ensures View() == UpdateSets(old(View()), fd, if fds[fd].Used() then fds[fd].interest else OP_NOOP)
    {
      master_r := master_r - {fd};
      master_w := master_w - {fd};
      if fds[fd].Used() {
        if fds[fd].interest.read {
          master_r := master_r + {fd};
        }
        if fds[fd].interest.write {
          master_w := master_w + {fd};
        }
      }
    }

    /** selector_register */
    method RegisterFd(fd: int, handler: Handler, interest: Interest, data: Pointer) returns (status: Status)
      requires Indexed(View()) && fd != fds.Length <= ITEMS_MAX_SIZE + 1
      modifies this, fds
      ensures (View(), status) == Register(old(View()), fd, interest, handler, data) && Indexed(View())
      ensures if fd < old(fds.Length) then fds == old(fds) else fds == old(fds) || fresh(fds)
    {
      hide OthersKept, Indexed;
      RegisterIndexed(View(), fd, interest, handler, data);
      status := SELECTOR_SUCCESS;
      if InvalidFd(fd) || handler == NO_HANDLER {
        return SELECTOR_IARGS;
      }
      if fd > fds.Length {
        CapacitySuffices(fd);
        status := Ensure(fd);
      }
      if fds[fd].Used() {
        return SELECTOR_FDINUSE;
      }
      fds[fd] := Item(fd, interest, handler, data);
      if fd > max_fd {
        max_fd := fd;
      }
      UpdateFdset(fd);
    }

    /** items_max_fd */
    method ItemsMaxFd() returns (max: nat)
      requires max_fd < fds.Length
      ensures max == HighestUsed(fds[..], max_fd + 1)
    {
      max := 0;
      for i := 0 to max_fd + 1
        invariant max == HighestUsed(fds[..], i)
      {
        if fds[i].Used() {
          if fds[i].fd > max {
            max := fds[i].fd;
          }
        }
      }
    }

    /** What selector_unregister_fd does after the close callback. */
    method ClearItem(fd: int)
      requires Indexed(View()) && IsUsed(View(), fd)
      modifies this, fds
      ensures View() == Clear(old(View()), fd) && Indexed(View()) && fds == old(fds)
    {
      ClearIndexed(View(), fd);
      fds[fd] := fds[fd].(interest := OP_NOOP);
      UpdateFdset(fd);
      fds[fd] := UNUSED;
      assert fds[..] == old(fds[..])[fd := UNUSED];
      max_fd := ItemsMaxFd();
    }

    method ChangeInterest(fd: int, i: Interest) returns (status: Status)
      requires Indexed(View()) && (InvalidFd(fd) || fd < fds.Length)
      modifies this, fds
      ensures (View(), status) == SetInterest(old(View()), fd, i) && Indexed(View()) && fds == old(fds)
      ensures status == SELECTOR_SUCCESS <==> 0 <= fd < 1024 && old(fds[fd].Used())
      ensures status == SELECTOR_SUCCESS ==> Watches(old(View()), View(), fd, i.read, i.write)
      ensures status != SELECTOR_SUCCESS ==> View() == old(View())
    {
      InterestsExactly(View(), fd, i);
      SetInterestIndexed(View(), fd, i);
      if InvalidFd(fd) || !fds[fd].Used() {
        return SELECTOR_IARGS;
      }
      fds[fd] := fds[fd].(interest := i);
      UpdateFdset(fd);
      status := SELECTOR_SUCCESS;
    }

    method AddFdInterest(fd: int, i: Interest) returns (status: Status)
      requires Indexed(View()) && (InvalidFd(fd) || fd < fds.Length)
      modifies this, fds
      ensures (View(), status) == AddInterest(old(View()), fd, i) && Indexed(View()) && fds == old(fds)
      ensures status == SELECTOR_SUCCESS <==> 0 <= fd < 1024 && old(fds[fd].Used())
      ensures status == SELECTOR_SUCCESS ==>
                Watches(old(View()), View(), fd, old(fd in master_r) || i.read, old(fd in master_w) || i.write)
      ensures status != SELECTOR_SUCCESS ==> View() == old(View())
    {
      InterestsExactly(View(), fd, i);
      if InvalidFd(fd) || !fds[fd].Used() {
        return SELECTOR_IARGS;
      }
      status := ChangeInterest(fd, With(fds[fd].interest, i));
    }

    method RemoveFdInterest(fd: int, i: Interest) returns (status: Status)
      requires Indexed(View()) && (InvalidFd(fd) || fd < fds.Length)
      modifies this, fds
      ensures (View(), status) == RemoveInterest(old(View()), fd, i) && Indexed(View()) && fds == old(fds)
      ensures status == SELECTOR_SUCCESS <==> 0 <= fd < 1024 && old(fds[fd].Used())
      ensures status == SELECTOR_SUCCESS ==>
                Watches(old(View()), View(), fd, old(fd in master_r) && !i.read, old(fd in master_w) && !i.write)
      ensures status != SELECTOR_SUCCESS ==> View() == old(View())
    {
      InterestsExactly(View(), fd, i);
      if InvalidFd(fd) || !fds[fd].Used() {
        return SELECTOR_IARGS;
      }
      status := ChangeInterest(fd, Without(fds[fd].interest, i));
    }
  }
}
