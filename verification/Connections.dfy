/**
  Sessions, their two descriptors in the selector's table, and the count of current connections.  Closing is a
  cascade: unregistering a client's descriptor calls back into closing its server's.
 */
module Connections {
  import opened Selector
  import opened Sockets

  datatype Session = Session(clientFd: int, serverFd: int, serverState: ConnectionState)

  const UINT16_MAX: nat := 65535
  const UINT64_MAX: nat := 0xFFFF_FFFF_FFFF_FFFF

  datatype Statistics = Statistics(totalConnections: nat, currentConnections: nat, maxConcurrentConnections: nat)

  function Max(a: nat, b: nat): nat { if a < b then b else a }

  /** statistics_inc_current_connection, with both saturation branches. */
  function Inc(s: Statistics): Statistics {
    var t := if s.totalConnections < UINT64_MAX then s.totalConnections + 1 else s.totalConnections;
    if s.currentConnections < UINT16_MAX then
      Statistics(t, s.currentConnections + 1, Max(s.maxConcurrentConnections, s.currentConnections + 1))
    else s.(totalConnections := t)
  }

  /** statistics_dec_current_connection */
  function Dec(s: Statistics): Statistics {
    if s.currentConnections > 0 then s.(currentConnections := s.currentConnections - 1) else s
  }

  /** The server: its table, the sessions in memory, and what was ever opened, closed, allocated and freed. */
  datatype World = World(
    table: Table, sessions: map<Pointer, Session>, statistics: Statistics,
    acquired: multiset<int>, closed: multiset<int>, obtained: multiset<Pointer>, freed: multiset<Pointer>)

  const START := World(NewTable(1025), map[], Statistics(0, 0, 0), multiset{}, multiset{}, multiset{}, multiset{})

  // ---------------------------------------------------------------- the invariant

  predicate IsConnection(i: Item) { i.Used() && (i.handler.CLIENT_HANDLER? || i.handler.SERVER_HANDLER?) }

  /** The descriptors of clients and servers. */
  function ConnectionFds(t: Table): set<int> {
    set i | 0 <= i < |t.fds| && IsConnection(t.fds[i])
  }

  /** A used item belongs to a session that knows it, or to none. */
  predicate ItemLinked(w: World, i: nat)
    requires i < |w.table.fds|
  {
    var it := w.table.fds[i];
    it.Used() ==>
      && !it.handler.NO_HANDLER?
      && (it.handler.CLIENT_HANDLER? ==> it.data in w.sessions && w.sessions[it.data].clientFd == i)
      && (it.handler.SERVER_HANDLER? ==>
            it.data in w.sessions && w.sessions[it.data].serverFd == i && !w.sessions[it.data].serverState.INVALID?)
  }

  predicate HasItem(t: Table, fd: int, handler: Handler, p: Pointer) {
    IsUsed(t, fd) && t.fds[fd].handler == handler && t.fds[fd].data == p
  }

  /** A session in memory has its client registered, and its server as long as that connection is valid. */
  predicate SessionLinked(w: World, p: Pointer)
    requires p in w.sessions
  {
    var s := w.sessions[p];
    HasItem(w.table, s.clientFd, CLIENT_HANDLER, p)
    && (!s.serverState.INVALID? ==> HasItem(w.table, s.serverFd, SERVER_HANDLER, p))
  }

  predicate Linked(w: World) {
    && (forall i :: 0 <= i < |w.table.fds| ==> ItemLinked(w, i))
    && (forall p :: p in w.sessions ==> p != NULL && SessionLinked(w, p))
  }

  /** Nothing is leaked, closed twice or freed twice, and the counters tell the truth. */
  ghost predicate Balanced(w: World) {
    && w.acquired == w.closed + multiset(ConnectionFds(w.table))
    && w.obtained == w.freed + multiset(w.sessions.Keys)
    && w.statistics.currentConnections ==
       |ConnectionFds(w.table)| <= w.statistics.maxConcurrentConnections <= ITEMS_MAX_SIZE
    && w.statistics.totalConnections == (if |w.acquired| < UINT64_MAX then |w.acquired| else UINT64_MAX)
  }

  ghost predicate Inv(w: World) { Indexed(w.table) && |w.table.fds| == 1025 && Linked(w) && Balanced(w) }

  // ---------------------------------------------------------------- unregistering

  /** Unregistering a server's descriptor: socks5_server_close, then the table. */
  function CloseServerItem(w: World, fd: int): World
    requires IsUsed(w.table, fd) && w.table.fds[fd].data in w.sessions
  {
    var p := w.table.fds[fd].data;
    w.(table := Clear(w.table, fd), sessions := w.sessions[p := w.sessions[p].(serverState := INVALID)],
       statistics := Dec(w.statistics), closed := w.closed + multiset{fd})
  }

  /** The session behind a client's descriptor goes away with it. */
  function DropClientItem(w: World, fd: int): World
    requires IsUsed(w.table, fd) && w.table.fds[fd].data in w.sessions
  {
    var p := w.table.fds[fd].data;
    w.(table := Clear(w.table, fd), sessions := w.sessions - {p}, statistics := Dec(w.statistics),
       closed := w.closed + multiset{fd}, freed := w.freed + multiset{p})
  }

  /** Unregistering a client's descriptor: socks5_client_close first unregisters the server's. */
  function CloseClientItem(w: World, fd: int): World
    requires Linked(w) && IsUsed(w.table, fd) && w.table.fds[fd].handler.CLIENT_HANDLER?
  {
    assert ItemLinked(w, fd) && SessionLinked(w, w.table.fds[fd].data);
    var s := w.sessions[w.table.fds[fd].data];
    DropClientItem(if s.serverState.INVALID? then w else CloseServerItem(w, s.serverFd), fd)
  }

  /** selector_unregister_fd: the close callback of the item's handler, then the table. */
  function Unregister(w: World, fd: int): World
    requires Linked(w)
  {
    if InvalidFd(fd) || !IsUsed(w.table, fd) then w
    else
      assert ItemLinked(w, fd);
      if w.table.fds[fd].handler.CLIENT_HANDLER? then CloseClientItem(w, fd)
      else if w.table.fds[fd].handler.SERVER_HANDLER? then CloseServerItem(w, fd)
      else w.(table := Clear(w.table, fd))
  }

  // ---------------------------------------------------------------- what the server does

  datatype Op =
    | Listen(fd: int)                            // another part of the program registers a descriptor
    | Accept(fd: int, p: Pointer)                // a client was accepted and its session allocated
    | Connect(p: Pointer, fd: int)               // a session registers its server
    | Interests(fd: int, i: Interest)            // any change of interests
    | HalfClose(p: Pointer, state: ConnectionState)  // the relay marks the server's connection
    | UnregisterServer(p: Pointer)               // a failed connection
    | CloseSession(p: Pointer)                   // socks5_close_session
    | UnregisterFd(fd: int)                      // any descriptor, as selector_destroy does

  /** A descriptor fresh from the kernel, below what select supports. */
  predicate FreshFd(w: World, fd: int) { !InvalidFd(fd) && fd < |w.table.fds| && !IsUsed(w.table, fd) }

  predicate Enabled(w: World, op: Op) {
    match op
    case Listen(fd) => FreshFd(w, fd)
    case Accept(fd, p) => FreshFd(w, fd) && p != NULL && p !in w.sessions
    case Connect(p, fd) => FreshFd(w, fd) && p in w.sessions && w.sessions[p].serverState.INVALID?
    case HalfClose(p, state) => p in w.sessions && !w.sessions[p].serverState.INVALID? && !state.INVALID?
    case UnregisterServer(p) => p in w.sessions && !w.sessions[p].serverState.INVALID?
    case CloseSession(p) => p in w.sessions
    case Interests(_, _) => true
    case UnregisterFd(_) => true
  }

  function Step(w: World, op: Op): World
    requires Linked(w) && Enabled(w, op)
  {
    match op
    case Listen(fd) => w.(table := Store(w.table, fd, OP_READ, OTHER_HANDLER, NULL))
    case Accept(fd, p) =>
      w.(table := Store(w.table, fd, OP_READ, CLIENT_HANDLER, p), sessions := w.sessions[p := Session(fd, 0, INVALID)],
         statistics := Inc(w.statistics), acquired := w.acquired + multiset{fd}, obtained := w.obtained + multiset{p})
    case Connect(p, fd) =>
      w.(table := Store(w.table, fd, OP_WRITE, SERVER_HANDLER, p),
         sessions := w.sessions[p := w.sessions[p].(serverFd := fd, serverState := OPEN)],
         statistics := Inc(w.statistics), acquired := w.acquired + multiset{fd})
    case Interests(fd, i) => w.(table := SetInterest(w.table, fd, i).0)
    case HalfClose(p, state) => w.(sessions := w.sessions[p := w.sessions[p].(serverState := state)])
    case UnregisterServer(p) => Unregister(w, w.sessions[p].serverFd)
    case CloseSession(p) => Unregister(w, w.sessions[p].clientFd)
    case UnregisterFd(fd) => Unregister(w, fd)
  }

  // ---------------------------------------------------------------- every step keeps the invariant

  lemma {:induction false} BoundedSetSize(s: set<int>, n: nat)
    requires forall i :: i in s ==> 0 <= i < n
    ensures |s| <= n
    decreases n
  {
    if n == 0 {
      assert forall i :: i in s ==> i in {};
      assert s <= {};
    } else {
      BoundedSetSize(s - {n - 1}, n - 1);
    }
  }

  /** No more connections than descriptors, so the counter is far from its limit. */
  lemma FewConnections(t: Table)
    requires Indexed(t)
    ensures |ConnectionFds(t)| <= ITEMS_MAX_SIZE
    ensures forall fd :: !InvalidFd(fd) && !IsUsed(t, fd) ==> |ConnectionFds(t)| < ITEMS_MAX_SIZE
  {
    BoundedSetSize(ConnectionFds(t), ITEMS_MAX_SIZE);
    forall fd | !InvalidFd(fd) && !IsUsed(t, fd)
      ensures |ConnectionFds(t)| < ITEMS_MAX_SIZE
    {
      BoundedSetSize(ConnectionFds(t) + {fd}, ITEMS_MAX_SIZE);
    }
  }

  lemma StoreConnection(t: Table, fd: nat, interest: Interest, handler: Handler, p: Pointer)
    requires fd < |t.fds| && !t.fds[fd].Used() && (handler.CLIENT_HANDLER? || handler.SERVER_HANDLER?)
    ensures ConnectionFds(Store(t, fd, interest, handler, p)) == ConnectionFds(t) + {fd} && fd !in ConnectionFds(t)
  {}

  lemma ClearConnection(t: Table, fd: nat)
    requires IsUsed(t, fd) && IsConnection(t.fds[fd])
    ensures ConnectionFds(Clear(t, fd)) == ConnectionFds(t) - {fd} && fd in ConnectionFds(t)
  {}

  /** A connection more: the counters go up without saturating. */
  lemma OpenBalanced(w: World, v: World, fd: int)
    requires Indexed(w.table) && Balanced(w) && !InvalidFd(fd) && !IsUsed(w.table, fd)
    requires ConnectionFds(v.table) == ConnectionFds(w.table) + {fd} && fd !in ConnectionFds(w.table)
    requires v.acquired == w.acquired + multiset{fd} && v.closed == w.closed && v.statistics == Inc(w.statistics)
    requires v.obtained == v.freed + multiset(v.sessions.Keys)
    ensures Balanced(v) && v.statistics.currentConnections == w.statistics.currentConnections + 1
  {
    FewConnections(w.table);
    assert multiset(ConnectionFds(v.table)) == multiset(ConnectionFds(w.table)) + multiset{fd};
  }

  /** A connection less. */
  lemma CloseBalanced(w: World, v: World, fd: int)
    requires Balanced(w) && fd in ConnectionFds(w.table) && ConnectionFds(v.table) == ConnectionFds(w.table) - {fd}
    requires v.acquired == w.acquired && v.closed == w.closed + multiset{fd} && v.statistics == Dec(w.statistics)
    requires v.obtained == v.freed + multiset(v.sessions.Keys)
    ensures Balanced(v) && v.statistics.currentConnections == w.statistics.currentConnections - 1
  {
    assert multiset(ConnectionFds(w.table)) == multiset(ConnectionFds(v.table)) + multiset{fd};
  }

  lemma StoreLinked(w: World, v: World, fd: nat, interest: Interest, handler: Handler, p: Pointer)
    requires Linked(w) && FreshFd(w, fd) && v.table == Store(w.table, fd, interest, handler, p)
    requires forall q :: q in w.sessions && q != p ==> q in v.sessions && v.sessions[q] == w.sessions[q]
    requires forall q :: q in v.sessions && q != p ==> q in w.sessions
    requires p != NULL && handler.CLIENT_HANDLER? ==>
               p !in w.sessions && p in v.sessions && v.sessions[p] == Session(fd, 0, INVALID)
    requires p != NULL && handler.SERVER_HANDLER? ==>
               p in w.sessions && w.sessions[p].serverState.INVALID?
               && p in v.sessions && v.sessions[p] == w.sessions[p].(serverFd := fd, serverState := OPEN)
    requires handler.OTHER_HANDLER? || p != NULL
    requires handler.OTHER_HANDLER? ==> v.sessions == w.sessions
    requires !handler.NO_HANDLER?
    ensures Linked(v)
  {
    forall i | 0 <= i < |v.table.fds|
      ensures ItemLinked(v, i)
    {
      assert ItemLinked(w, i);
    }
    forall q | q in v.sessions
      ensures q != NULL && SessionLinked(v, q)
    {
      if q in w.sessions { assert SessionLinked(w, q); }
    }
  }

  lemma ClearedItems(t: Table, fd: int)
    requires IsUsed(t, fd)
    ensures Clear(t, fd).fds == t.fds[fd := UNUSED]
  {}

  lemma CloseServerLinked(w: World, fd: int)
    requires Linked(w) && IsUsed(w.table, fd) && w.table.fds[fd].handler.SERVER_HANDLER?
             && w.table.fds[fd].data in w.sessions
    ensures Linked(CloseServerItem(w, fd))
  {
    hide Clear, Dec;
    var v := CloseServerItem(w, fd);
    ClearedItems(w.table, fd);
    assert ItemLinked(w, fd);
    forall i | 0 <= i < |v.table.fds|
      ensures ItemLinked(v, i)
    {
      assert ItemLinked(w, i);
    }
    forall q | q in v.sessions
      ensures q != NULL && SessionLinked(v, q)
    {
      assert SessionLinked(w, q);
    }
  }

  lemma DropClientLinked(w: World, fd: int)
    requires Linked(w) && IsUsed(w.table, fd) && w.table.fds[fd].handler.CLIENT_HANDLER?
    requires w.table.fds[fd].data in w.sessions && w.sessions[w.table.fds[fd].data].serverState.INVALID?
    ensures Linked(DropClientItem(w, fd))
  {
    hide Clear, Dec;
    var v := DropClientItem(w, fd);
    ClearedItems(w.table, fd);
    assert ItemLinked(w, fd);
    forall i | 0 <= i < |v.table.fds|
      ensures ItemLinked(v, i)
    {
      assert ItemLinked(w, i);
    }
    forall q | q in v.sessions
      ensures q != NULL && SessionLinked(v, q)
    {
      assert SessionLinked(w, q);
    }
  }

  /** Closing a server's descriptor. */
  lemma CloseServerInv(w: World, fd: int)
    requires Inv(w) && IsUsed(w.table, fd) && w.table.fds[fd].handler.SERVER_HANDLER?
    ensures w.table.fds[fd].data in w.sessions && Inv(CloseServerItem(w, fd))
    ensures ConnectionFds(CloseServerItem(w, fd).table) == ConnectionFds(w.table) - {fd} && fd in ConnectionFds(w.table)
  {
    assert ItemLinked(w, fd);
    hide Clear, Dec, Linked, ConnectionFds, Indexed, Balanced;
    var v := CloseServerItem(w, fd);
    ClearIndexed(w.table, fd);
    ClearedItems(w.table, fd);
    ClearConnection(w.table, fd);
    CloseServerLinked(w, fd);
    assert v.sessions.Keys == w.sessions.Keys;
    SessionsBalanced(w);
    CloseBalanced(w, v, fd);
  }

  lemma SessionsBalanced(w: World)
    requires Balanced(w)
    ensures w.obtained == w.freed + multiset(w.sessions.Keys)
  {}

  /** Dropping a client whose server is closed. */
  lemma DropClientInv(w: World, fd: int)
    requires Inv(w) && IsUsed(w.table, fd) && w.table.fds[fd].handler.CLIENT_HANDLER?
    requires w.table.fds[fd].data in w.sessions && w.sessions[w.table.fds[fd].data].serverState.INVALID?
    ensures Inv(DropClientItem(w, fd))
    ensures ConnectionFds(DropClientItem(w, fd).table) == ConnectionFds(w.table) - {fd} && fd in ConnectionFds(w.table)
  {
    hide Clear, Dec, Linked, ConnectionFds, Indexed, Balanced;
    var p := w.table.fds[fd].data;
    var v := DropClientItem(w, fd);
    ClearIndexed(w.table, fd);
    ClearedItems(w.table, fd);
    ClearConnection(w.table, fd);
    DropClientLinked(w, fd);
    assert v.sessions.Keys == w.sessions.Keys - {p};
    assert multiset(w.sessions.Keys) == multiset(v.sessions.Keys) + multiset{p};
    SessionsBalanced(w);
    CloseBalanced(w, v, fd);
  }

  lemma ClearOtherInv(w: World, fd: int)
    requires Inv(w) && IsUsed(w.table, fd) && w.table.fds[fd].handler.OTHER_HANDLER?
    ensures Inv(w.(table := Clear(w.table, fd)))
  {
    var v := w.(table := Clear(w.table, fd));
    ClearIndexed(w.table, fd);
    ClearedItems(w.table, fd);
    hide Clear, Indexed;
    assert ConnectionFds(v.table) == ConnectionFds(w.table);
    forall i | 0 <= i < |v.table.fds|
      ensures ItemLinked(v, i)
    {
      assert ItemLinked(w, i);
    }
    forall q | q in v.sessions
      ensures q != NULL && SessionLinked(v, q)
    {
      assert SessionLinked(w, q);
    }
  }

  /** An accepted client is watched for reading under its new session, which has no server; a session's server is
      watched for writing and open.  Nothing else changes, and the counters of connections each go up by one. */
  lemma NewConnections(w: World, op: Op)
    requires Inv(w) && Enabled(w, op) && (op.Accept? || op.Connect?)
    ensures var v := Step(w, op); var p, fd := op.p, op.fd;
            && OthersKept(w.table, v.table, fd) && |v.table.fds| == |w.table.fds|
            && IsUsed(v.table, fd) && v.table.fds[fd].data == p
            && (op.Accept? ==>
                  && v.table.fds[fd].handler.CLIENT_HANDLER? && fd in v.table.masterR && fd !in v.table.masterW
                  && v.sessions.Keys == w.sessions.Keys + {p}
                  && v.sessions[p].clientFd == fd && v.sessions[p].serverState.INVALID?)
            && (op.Connect? ==>
                  && v.table.fds[fd].handler.SERVER_HANDLER? && fd in v.table.masterW && fd !in v.table.masterR
                  && v.sessions.Keys == w.sessions.Keys
                  && v.sessions[p] == Session(w.sessions[p].clientFd, fd, OPEN))
            && (forall q :: q in w.sessions && q != p ==> v.sessions[q] == w.sessions[q])
            && v.statistics.currentConnections == w.statistics.currentConnections + 1
            && v.acquired == w.acquired + multiset{fd} && v.closed == w.closed && v.freed == w.freed
  {
    hide Indexed, Linked, ConnectionFds;
    FewBeforeNew(w, op.fd);
  }

  lemma FewBeforeNew(w: World, fd: int)
    requires Inv(w) && FreshFd(w, fd)
    ensures w.statistics.currentConnections < UINT16_MAX
  {
    hide Indexed, Linked, ConnectionFds;
  }

  /** The descriptors of a session. */
  function FdsOf(s: Session): set<int> {
    if s.serverState.INVALID? then {s.clientFd} else {s.clientFd, s.serverFd}
  }

  lemma CloseClientSteps(w: World, p: Pointer) returns (w1: World, v: World)
    requires Inv(w) && p in w.sessions
    ensures var s := w.sessions[p];
            && IsUsed(w.table, s.clientFd) && w.table.fds[s.clientFd].handler.CLIENT_HANDLER?
            && w.table.fds[s.clientFd].data == p
            && !InvalidFd(s.clientFd)
            && v == CloseClientItem(w, s.clientFd) && Inv(w1) && Inv(v)
            && IsUsed(w1.table, s.clientFd) && w1.table.fds[s.clientFd].data == p && p in w1.sessions
            && v == DropClientItem(w1, s.clientFd) && s.clientFd in ConnectionFds(w1.table)
            && ConnectionFds(v.table) == ConnectionFds(w1.table) - {s.clientFd}
            && if s.serverState.INVALID? then w1 == w
               else && IsUsed(w.table, s.serverFd) && w.table.fds[s.serverFd].data == p && s.serverFd != s.clientFd
                    && w1 == CloseServerItem(w, s.serverFd) && s.serverFd in ConnectionFds(w.table)
                    && ConnectionFds(w1.table) == ConnectionFds(w.table) - {s.serverFd}
  {
    hide Clear, Balanced, Dec, ConnectionFds;
    var s := w.sessions[p];
    assert SessionLinked(w, p);
    w1 := if s.serverState.INVALID? then w else CloseServerItem(w, s.serverFd);
    if !s.serverState.INVALID? {
      CloseServerInv(w, s.serverFd);
      ClearedItems(w.table, s.serverFd);
    }
    DropClientInv(w1, s.clientFd);
    v := DropClientItem(w1, s.clientFd);
  }

  lemma CascadeItems(w: World, p: Pointer)
    requires Inv(w) && p in w.sessions
    ensures var s := w.sessions[p]; var items := Unregister(w, s.clientFd).table.fds;
            && |items| == |w.table.fds|
            && (forall i :: 0 <= i < |items| ==> items[i] == if i in FdsOf(s) then UNUSED else w.table.fds[i])
  {
    hide Clear, Balanced, Dec, ConnectionFds, Indexed, Linked;
    var s := w.sessions[p];
    var w1, v := CloseClientSteps(w, p);
    ClearedItems(w1.table, s.clientFd);
    if !s.serverState.INVALID? { ClearedItems(w.table, s.serverFd); }
  }

  /**
    The cascade.  Unregistering a client's descriptor closes its server's, if there is one, and then its own, each
    once; the session is freed once; every other item and session is left alone.
   */
  lemma CloseSessionCascade(w: World, p: Pointer)
    requires Inv(w) && p in w.sessions
    ensures var v := Unregister(w, w.sessions[p].clientFd); var fds := FdsOf(w.sessions[p]);
            && Inv(v)
            && v.sessions == w.sessions - {p} && v.freed == w.freed + multiset{p} && v.obtained == w.obtained
            && v.closed == w.closed + multiset(fds) && v.acquired == w.acquired
            && |v.table.fds| == |w.table.fds|
            && (forall i :: 0 <= i < |w.table.fds| ==> v.table.fds[i] == if i in fds then UNUSED else w.table.fds[i])
            && v.statistics.currentConnections == w.statistics.currentConnections - |fds|
  {
    hide Clear, Balanced, Dec, ConnectionFds, Indexed, Linked;
    var s := w.sessions[p];
    CascadeItems(w, p);
    var w1, v := CloseClientSteps(w, p);
    Counts(w);
    Counts(w1);
    Counts(v);
    if !s.serverState.INVALID? {
      assert multiset(FdsOf(s)) == multiset{s.serverFd} + multiset{s.clientFd};
    }
  }

  /** A server that is given up on its own: its descriptor is closed once, and its session keeps its client. */
  lemma ServerIsGivenUp(w: World, p: Pointer)
    requires Inv(w) && p in w.sessions && !w.sessions[p].serverState.INVALID?
    ensures var v := Step(w, UnregisterServer(p)); var s := w.sessions[p]; var fd := s.serverFd;
            && v == Step(w, UnregisterFd(fd))
            && !IsUsed(v.table, fd) && OthersKept(w.table, v.table, fd) && |v.table.fds| == |w.table.fds|
            && v.sessions == w.sessions[p := Session(s.clientFd, fd, INVALID)]
            && v.closed == w.closed + multiset{fd} && v.acquired == w.acquired
            && v.obtained == w.obtained && v.freed == w.freed
            && v.statistics.currentConnections == w.statistics.currentConnections - 1
  {
    hide Clear, ConnectionFds;
    var fd := w.sessions[p].serverFd;
    assert SessionLinked(w, p);
    ClearIndexed(w.table, fd);
    Counts(w);
    assert fd in ConnectionFds(w.table) by { IsAConnection(w.table, fd); }
  }

  lemma IsAConnection(t: Table, fd: int)
    requires IsUsed(t, fd) && IsConnection(t.fds[fd])
    ensures fd in ConnectionFds(t)
  {}

  /** After the cascade no item points to the session. */
  lemma CascadeLeavesNoPointer(w: World, p: Pointer, i: nat)
    requires Inv(w) && p in w.sessions && i < |w.table.fds|
    ensures var v := Unregister(w, w.sessions[p].clientFd);
            i < |v.table.fds| && (IsConnection(v.table.fds[i]) ==> v.table.fds[i].data != p)
  {
    hide Unregister;
    CloseSessionCascade(w, p);
    assert ItemLinked(Unregister(w, w.sessions[p].clientFd), i);
  }

  lemma Counts(w: World)
    requires Balanced(w)
    ensures w.statistics.currentConnections == |ConnectionFds(w.table)|
  {}

  // ---------------------------------------------------------------- runs

  lemma UnregisterInv(w: World, fd: int)
    requires Inv(w)
    ensures Inv(Unregister(w, fd))
  {
    hide Clear, Balanced, Indexed, CloseClientItem;
    if !InvalidFd(fd) && IsUsed(w.table, fd) {
      assert ItemLinked(w, fd);
      if w.table.fds[fd].handler.CLIENT_HANDLER? {
        var w1, v := CloseClientSteps(w, w.table.fds[fd].data);
      } else if w.table.fds[fd].handler.SERVER_HANDLER? {
        CloseServerInv(w, fd);
      } else {
        ClearOtherInv(w, fd);
      }
    }
  }

  lemma ListenInv(w: World, fd: int)
    requires Inv(w) && FreshFd(w, fd)
    ensures Inv(Step(w, Listen(fd)))
  {
    hide Store, ConnectionFds, Linked, Balanced, Indexed;
    var v := Step(w, Listen(fd));
    StoreIndexed(w.table, fd, OP_READ, OTHER_HANDLER, NULL);
    StoredItems(w.table, fd, OP_READ, OTHER_HANDLER, NULL);
    StoreLinked(w, v, fd, OP_READ, OTHER_HANDLER, NULL);
    StoreOther(w.table, fd, OP_READ, NULL);
    SameBalance(w, v);
  }

  lemma AcceptInv(w: World, fd: int, p: Pointer)
    requires Inv(w) && FreshFd(w, fd) && p != NULL && p !in w.sessions
    ensures var v := Step(w, Accept(fd, p));
            Inv(v) && v.statistics.currentConnections == w.statistics.currentConnections + 1
  {
    hide Store, ConnectionFds, Linked, Balanced, Indexed, Inc;
    var v := Step(w, Accept(fd, p));
    StoreIndexed(w.table, fd, OP_READ, CLIENT_HANDLER, p);
    StoredItems(w.table, fd, OP_READ, CLIENT_HANDLER, p);
    StoreLinked(w, v, fd, OP_READ, CLIENT_HANDLER, p);
    StoreConnection(w.table, fd, OP_READ, CLIENT_HANDLER, p);
    SessionsBalanced(w);
    assert v.sessions.Keys == w.sessions.Keys + {p};
    assert multiset(v.sessions.Keys) == multiset(w.sessions.Keys) + multiset{p};
    OpenBalanced(w, v, fd);
  }

  lemma ConnectInv(w: World, p: Pointer, fd: int)
    requires Inv(w) && FreshFd(w, fd) && p in w.sessions && w.sessions[p].serverState.INVALID?
    ensures var v := Step(w, Connect(p, fd));
            Inv(v) && v.statistics.currentConnections == w.statistics.currentConnections + 1
  {
    hide Store, ConnectionFds, Linked, Balanced, Indexed, Inc;
    var v := Step(w, Connect(p, fd));
    SessionsOf(w, p);
    StoreIndexed(w.table, fd, OP_WRITE, SERVER_HANDLER, p);
    StoredItems(w.table, fd, OP_WRITE, SERVER_HANDLER, p);
    StoreLinked(w, v, fd, OP_WRITE, SERVER_HANDLER, p);
    StoreConnection(w.table, fd, OP_WRITE, SERVER_HANDLER, p);
    SessionsBalanced(w);
    assert v.sessions.Keys == w.sessions.Keys;
    OpenBalanced(w, v, fd);
  }

  lemma SessionsOf(w: World, p: Pointer)
    requires Linked(w) && p in w.sessions
    ensures p != NULL
  {}

  lemma StoredItems(t: Table, fd: nat, interest: Interest, handler: Handler, p: Pointer)
    requires fd < |t.fds|
    ensures Store(t, fd, interest, handler, p).fds == t.fds[fd := Item(fd, interest, handler, p)]
  {}

  lemma StoreOther(t: Table, fd: nat, interest: Interest, p: Pointer)
    requires fd < |t.fds| && !t.fds[fd].Used()
    ensures ConnectionFds(Store(t, fd, interest, OTHER_HANDLER, p)) == ConnectionFds(t)
  {}

  lemma SameBalance(w: World, v: World)
    requires Balanced(w) && ConnectionFds(v.table) == ConnectionFds(w.table)
             && v == w.(table := v.table, sessions := v.sessions)
    requires v.sessions.Keys == w.sessions.Keys
    ensures Balanced(v) && v.statistics == w.statistics
  {}

  lemma InterestsInv(w: World, fd: int, i: Interest)
    requires Inv(w)
    ensures Inv(Step(w, Interests(fd, i)))
  {
    SetInterestIndexed(w.table, fd, i);
    hide Indexed, UpdateSets, Balanced;
    var v := Step(w, Interests(fd, i));
    forall i | 0 <= i < |v.table.fds|
      ensures ItemLinked(v, i)
    {
      assert ItemLinked(w, i);
    }
    forall q | q in v.sessions
      ensures q != NULL && SessionLinked(v, q)
    {
      assert SessionLinked(w, q);
    }
    hide Linked;
    assert ConnectionFds(v.table) == ConnectionFds(w.table);
    SameBalance(w, v);
  }

  lemma HalfCloseInv(w: World, p: Pointer, state: ConnectionState)
    requires Inv(w) && p in w.sessions && !w.sessions[p].serverState.INVALID? && !state.INVALID?
    ensures Inv(Step(w, HalfClose(p, state)))
  {
    hide Indexed, Balanced, ConnectionFds;
    var v := Step(w, HalfClose(p, state));
    assert v.sessions.Keys == w.sessions.Keys;
    SameBalance(w, v);
    forall i | 0 <= i < |v.table.fds|
      ensures ItemLinked(v, i)
    {
      assert ItemLinked(w, i);
    }
    forall q | q in v.sessions
      ensures q != NULL && SessionLinked(v, q)
    {
      assert SessionLinked(w, q);
    }
  }

  lemma StepInv(w: World, op: Op)
    requires Inv(w) && Enabled(w, op)
    ensures Inv(Step(w, op))
  {
    hide Indexed, Balanced, Linked, Store, Unregister;
    match op
    case Listen(fd) => ListenInv(w, fd);
    case Accept(fd, p) => AcceptInv(w, fd, p);
    case Connect(p, fd) => ConnectInv(w, p, fd);
    case Interests(fd, i) => InterestsInv(w, fd, i);
    case HalfClose(p, state) => HalfCloseInv(w, p, state);
    case UnregisterServer(p) => UnregisterInv(w, w.sessions[p].serverFd);
    case CloseSession(p) => UnregisterInv(w, w.sessions[p].clientFd);
    case UnregisterFd(fd) => UnregisterInv(w, fd);
  }

  ghost predicate Run(w: World, ops: seq<Op>, v: World)
    requires Inv(w)
    decreases |ops|
  {
    if ops == [] then v == w
    else
      Enabled(w, ops[0]) && (StepInv(w, ops[0]); Run(Step(w, ops[0]), ops[1..], v))
  }

  lemma StartInv()
    ensures Inv(START)
  {
    assert ConnectionFds(START.table) == {};
  }

  lemma {:induction false} RunInv(w: World, ops: seq<Op>, v: World)
    requires Inv(w) && Run(w, ops, v)
    ensures Inv(v)
    decreases |ops|
  {
    hide Balanced, Indexed, Linked, Step, Enabled;
    if ops != [] {
      StepInv(w, ops[0]);
      RunInv(Step(w, ops[0]), ops[1..], v);
    }
  }

  lemma MultisetOfSet(s: set<int>, x: int)
    ensures multiset(s)[x] == if x in s then 1 else 0
  {}

  /**
    Over every run from the start: the descriptor sets and the highest descriptor describe the items; every
    descriptor that was opened for a connection has been closed as often, but for one time if it is a connection
    now; and currentConnections counts the connections, so neither of its saturation branches is ever taken.
   */
  lemma ConnectionsAreAccountedFor(ops: seq<Op>, v: World, fd: int)
    requires Inv(START) && Run(START, ops, v)
    ensures Indexed(v.table)
    ensures v.acquired[fd] == v.closed[fd] + if fd in ConnectionFds(v.table) then 1 else 0
    ensures v.statistics.currentConnections == |ConnectionFds(v.table)| <= ITEMS_MAX_SIZE < UINT16_MAX
    ensures fd in ConnectionFds(v.table) ==> v.statistics.currentConnections > 0
  {
    RunInv(START, ops, v);
    hide Indexed;
    MultisetOfSet(ConnectionFds(v.table), fd);
    if fd in ConnectionFds(v.table) { assert ConnectionFds(v.table) != {}; }
  }

  /** The counters of the statistics stop at the ends of their types: 64 bits, 16 bits and zero. */
  lemma CountersSaturate(s: Statistics)
    requires s.currentConnections <= s.maxConcurrentConnections <= 65535
    ensures var t := Inc(s);
            && t.totalConnections == (if s.totalConnections < 0xFFFF_FFFF_FFFF_FFFF then s.totalConnections + 1
                                      else s.totalConnections)
            && t.currentConnections == (if s.currentConnections < 65535 then s.currentConnections + 1 else 65535)
            && (t.maxConcurrentConnections == s.maxConcurrentConnections
                || t.maxConcurrentConnections == t.currentConnections > s.maxConcurrentConnections)
            && t.currentConnections <= t.maxConcurrentConnections
    ensures var t := Dec(s);
            && t.currentConnections == (if s.currentConnections == 0 then 0 else s.currentConnections - 1)
            && t.totalConnections == s.totalConnections && t.maxConcurrentConnections == s.maxConcurrentConnections
  {}

  /** The most connections that are open at once along a run. */
  function MostOpen(w: World, ops: seq<Op>): (most: nat)
    requires Inv(w)
    ensures most >= |ConnectionFds(w.table)|
    decreases |ops|
  {
    var n := |ConnectionFds(w.table)|;
    if ops == [] || !Enabled(w, ops[0]) then n
    else
      StepInv(w, ops[0]);
      var m := MostOpen(Step(w, ops[0]), ops[1..]);
      if n < m then m else n
  }

  lemma UnregisterMaximum(w: World, fd: int)
    requires Linked(w)
    ensures Unregister(w, fd).statistics.maxConcurrentConnections == w.statistics.maxConcurrentConnections
  {
    hide Clear, ItemLinked, SessionLinked;
  }

  lemma BalancedMaximum(w: World)
    requires Inv(w)
    ensures w.statistics.currentConnections <= w.statistics.maxConcurrentConnections
    ensures w.statistics.currentConnections == |ConnectionFds(w.table)|
  {
    hide Indexed, Linked, ConnectionFds;
  }

  lemma StepMaximum(w: World, op: Op)
    requires Inv(w) && Enabled(w, op)
    ensures var m, s := w.statistics.maxConcurrentConnections, Step(w, op).statistics;
            s.maxConcurrentConnections == if m < s.currentConnections then s.currentConnections else m
  {
    hide Indexed, Linked, Balanced, Store, Unregister, SetInterest;
    StepInv(w, op);
    BalancedMaximum(w);
    BalancedMaximum(Step(w, op));
    match op
    case Accept(fd, _) => FewBeforeNew(w, fd);
    case Connect(_, fd) => FewBeforeNew(w, fd);
    case UnregisterServer(p) => UnregisterMaximum(w, w.sessions[p].serverFd);
    case CloseSession(p) => UnregisterMaximum(w, w.sessions[p].clientFd);
    case UnregisterFd(fd) => UnregisterMaximum(w, fd);
    case _ =>
  }

  lemma {:induction false} RunMaximum(w: World, ops: seq<Op>, v: World)
    requires Inv(w) && Run(w, ops, v)
    ensures var m, n := w.statistics.maxConcurrentConnections, MostOpen(w, ops);
            v.statistics.maxConcurrentConnections == if m < n then n else m
    decreases |ops|
  {
    hide Indexed, Linked, Step, Enabled, ConnectionFds, Balanced;
    BalancedMaximum(w);
    if ops != [] {
      StepInv(w, ops[0]);
      StepMaximum(w, ops[0]);
      BalancedMaximum(Step(w, ops[0]));
      RunMaximum(Step(w, ops[0]), ops[1..], v);
    }
  }

  /** The greatest number of simultaneous connections that the statistics report is just that, from the start on. */
  lemma MaximumIsExact(ops: seq<Op>, v: World)
    requires Inv(START) && Run(START, ops, v)
    ensures v.statistics.maxConcurrentConnections == MostOpen(START, ops)
  {
    hide Inv, Run, MostOpen;
    RunMaximum(START, ops, v);
  }

  /** When a descriptor can be registered: any valid one that is not in use. */
  lemma RegistersExactlyWhen(w: World, fd: int, p: Pointer)
    requires Inv(w)
    ensures Enabled(w, Listen(fd)) <==> 0 <= fd < 1024 && !IsUsed(w.table, fd)
    ensures Enabled(w, Accept(fd, p)) <==> 0 <= fd < 1024 && !IsUsed(w.table, fd) && p != NULL && p !in w.sessions
    ensures Enabled(w, Connect(p, fd)) <==>
              0 <= fd < 1024 && !IsUsed(w.table, fd) && p in w.sessions && w.sessions[p].serverState.INVALID?
  {
    hide Indexed, Linked, Balanced;
  }

  /** What the operations that neither open nor close a connection change; closing a session unregisters its client. */
  lemma OtherOperations(w: World, op: Op)
    requires Inv(w) && Enabled(w, op)
    ensures var v := Step(w, op);
            && (op.HalfClose? ==>
                  v == w.(sessions := v.sessions) && v.sessions.Keys == w.sessions.Keys
                  && v.sessions[op.p] == Session(w.sessions[op.p].clientFd, w.sessions[op.p].serverFd, op.state)
                  && forall q :: q in w.sessions && q != op.p ==> v.sessions[q] == w.sessions[q])
            && (op.Interests? ==>
                  v == w.(table := v.table)
                  && if 0 <= op.fd < 1024 && IsUsed(w.table, op.fd)
                     then Watches(w.table, v.table, op.fd, op.i.read, op.i.write) else v == w)
            && (op.Listen? ==>
                  v == w.(table := v.table) && OthersKept(w.table, v.table, op.fd)
                  && v.table.fds[op.fd] == Item(op.fd, Interest(true, false), OTHER_HANDLER, NULL))
            && (op.UnregisterFd? && IsUsed(w.table, op.fd) && w.table.fds[op.fd].handler.OTHER_HANDLER? ==>
                  v == w.(table := v.table) && !IsUsed(v.table, op.fd) && OthersKept(w.table, v.table, op.fd))
            && (op.CloseSession? ==> v == Unregister(w, w.sessions[op.p].clientFd))
  {
    hide Linked, Balanced;
    if op.Interests? { InterestsExactly(w.table, op.fd, op.i); }
    if op.UnregisterFd? && IsUsed(w.table, op.fd) { ClearIndexed(w.table, op.fd); }
  }

  /** Once no session is left, every descriptor and every session has been given back exactly once. */
  lemma NothingLeaks(ops: seq<Op>, v: World)
    requires Inv(START) && Run(START, ops, v) && v.sessions == map[]
    ensures v.acquired == v.closed && v.obtained == v.freed && v.statistics.currentConnections == 0
  {
    RunInv(START, ops, v);
    forall i | 0 <= i < |v.table.fds|
      ensures !IsConnection(v.table.fds[i])
    {
      assert ItemLinked(v, i);
    }
    assert ConnectionFds(v.table) == {};
  }

  // ---------------------------------------------------------------- callbacks of one pass

  /** The operation registers this descriptor. */
  predicate Registers(op: Op, fd: int) {
    (op.Listen? || op.Accept? || op.Connect?) && op.fd == fd
  }

  /**
    Between the read and the write callback of a descriptor in one pass of the selector, whatever the read callback
    did short of registering the same number again: the item is gone, or it still has its handler and its data, and
    the data still points to a session.
   */
  lemma {:induction false} KeyStaysLive(w: World, ops: seq<Op>, v: World, fd: int)
    requires Inv(w) && Run(w, ops, v) && IsUsed(w.table, fd) && forall k :: 0 <= k < |ops| ==> !Registers(ops[k], fd)
    ensures |v.table.fds| == |w.table.fds|
    ensures IsUsed(v.table, fd) ==>
              && v.table.fds[fd].handler == w.table.fds[fd].handler && v.table.fds[fd].data == w.table.fds[fd].data
              && (IsConnection(v.table.fds[fd]) ==> v.table.fds[fd].data in v.sessions)
    decreases |ops|
  {
    RunInv(w, ops, v);
    RunKeepsItem(w, ops, v, fd);
    if IsUsed(v.table, fd) { assert ItemLinked(v, fd); }
  }

  predicate SameItem(t: Table, u: Table, fd: int) {
    IsUsed(u, fd) ==> IsUsed(t, fd) && u.fds[fd].handler == t.fds[fd].handler && u.fds[fd].data == t.fds[fd].data
  }

  lemma UnregisterKeepsItem(w: World, closing: int, fd: int)
    requires Inv(w)
    ensures |Unregister(w, closing).table.fds| == |w.table.fds| && SameItem(w.table, Unregister(w, closing).table, fd)
  {
    hide Balanced, Indexed, Clear, Dec;
    if !InvalidFd(closing) && IsUsed(w.table, closing) {
      assert ItemLinked(w, closing);
      ClearedItems(w.table, closing);
      if w.table.fds[closing].handler.CLIENT_HANDLER? {
        CloseSessionCascade(w, w.table.fds[closing].data);
      }
    }
  }

  lemma StepKeepsItem(w: World, op: Op, fd: int)
    requires Inv(w) && Enabled(w, op) && !Registers(op, fd)
    ensures |Step(w, op).table.fds| == |w.table.fds| && SameItem(w.table, Step(w, op).table, fd)
  {
    hide Balanced, Indexed, Linked, Inc, Unregister;
    match op
    case UnregisterServer(p) => UnregisterKeepsItem(w, w.sessions[p].serverFd, fd);
    case CloseSession(p) => UnregisterKeepsItem(w, w.sessions[p].clientFd, fd);
    case UnregisterFd(closing) => UnregisterKeepsItem(w, closing, fd);
    case _ =>
  }

  lemma {:induction false} RunKeepsItem(w: World, ops: seq<Op>, v: World, fd: int)
    requires Inv(w) && Run(w, ops, v) && forall k :: 0 <= k < |ops| ==> !Registers(ops[k], fd)
    ensures |v.table.fds| == |w.table.fds| && SameItem(w.table, v.table, fd)
    decreases |ops|
  {
    hide Balanced, Indexed, Linked, Step, Enabled;
    if ops != [] {
      StepInv(w, ops[0]);
      StepKeepsItem(w, ops[0], fd);
      RunKeepsItem(Step(w, ops[0]), ops[1..], v, fd);
    }
  }
}
