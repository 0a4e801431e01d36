/**
  The close callbacks, which re-enter the selector, and the operations that register and count connections.
 */
module ConnectionHandlers {
  import opened Selector
  import opened Connections
  import opened Sockets

  class Server {
    const selector: FdSelector
    /** The sessions in memory, by address. */
    var sessions: map<Pointer, Session>
    var totalConnections: nat
    var currentConnections: nat
    var maxConcurrentConnections: nat
    /** Descriptors handed out by and given back to the kernel; sessions obtained from and given back to the heap. */
    ghost var acquired: multiset<int>
    ghost var closed: multiset<int>
    ghost var obtained: multiset<Pointer>
    ghost var freed: multiset<Pointer>

    ghost function View(): World
      reads this, selector, selector.fds
    {
      World(selector.View(), sessions, Statistics(totalConnections, currentConnections, maxConcurrentConnections),
            acquired, closed, obtained, freed)
    }

    constructor ()
      ensures View() == START && Inv(View()) && fresh(selector) && fresh(selector.fds)
    {
      selector := new FdSelector(1024);
      sessions := map[];
      totalConnections, currentConnections, maxConcurrentConnections := 0, 0, 0;
      acquired, closed, obtained, freed := multiset{}, multiset{}, multiset{}, multiset{};
      new;
      ServerCapacity();
      StartInv();
    }

    // -------------------------------------------------------------- statistics

    method IncCurrentConnection()
      modifies this
      ensures View() == old(View()).(statistics := Inc(old(View()).statistics))
    {
      if totalConnections < UINT64_MAX {
        totalConnections := totalConnections + 1;
      }
      if currentConnections < UINT16_MAX {
        currentConnections := currentConnections + 1;
        if currentConnections > maxConcurrentConnections {
          maxConcurrentConnections := currentConnections;
        }
      }
    }

    method DecCurrentConnection()
      modifies this
      ensures View() == old(View()).(statistics := Dec(old(View()).statistics))
    {
      if currentConnections > 0 {
        currentConnections := currentConnections - 1;
      }
    }

    // -------------------------------------------------------------- close callbacks

    /** socks5_server_close */
    method ServerClose(fd: int, p: Pointer)
      requires p in sessions
      modifies this
      ensures var w := old(View());
              View() == w.(sessions := w.sessions[p := w.sessions[p].(serverState := INVALID)],
                           statistics := Dec(w.statistics), closed := w.closed + multiset{fd})
    {
      sessions := sessions[p := sessions[p].(serverState := INVALID)];
      closed := closed + multiset{fd};
      DecCurrentConnection();
    }

    /** socks5_client_close: the table still holds the client's item, and loses the server's on the way. */
    method ClientClose(p: Pointer)
      requires Inv(View()) && p in sessions
      modifies this, selector, selector.fds
      ensures View() == ClientClosed(old(View()), p) && Indexed(View().table) && selector.fds == old(selector.fds)
      decreases 1
    {
      hide Unregister, Balanced, Indexed, Dec, Clear, CloseServerItem;
      ghost var w := View();
      assert SessionLinked(w, p);
      var clientFd := sessions[p].clientFd;
      if !sessions[p].serverState.INVALID? {
        UnregisterInv(w, sessions[p].serverFd);
        UnregisterServerKeepsClient(w, p);
        var _ := UnregisterDescriptor(sessions[p].serverFd);
      }
      closed := closed + multiset{clientFd};
      DecCurrentConnection();
      sessions := sessions - {p};
      freed := freed + multiset{p};
    }

    /** The close callback of an item's handler, if it has one. */
    method HandleClose(fd: int)
      requires Inv(View()) && IsUsed(View().table, fd)
      modifies this, selector, selector.fds
      ensures View() == Called(old(View()), fd) && Indexed(View().table) && selector.fds == old(selector.fds)
      decreases if View().table.fds[fd].handler.CLIENT_HANDLER? then 2 else 0, 0
    {
      hide Unregister, Balanced, Dec, Indexed, ClientClosed;
      assert ItemLinked(View(), fd);
      var item := selector.fds[fd];
      if item.handler == CLIENT_HANDLER {
        ClientClose(item.data);
      } else if item.handler == SERVER_HANDLER {
        ServerClose(fd, item.data);
      }
    }

    /** selector_unregister_fd */
    method UnregisterDescriptor(fd: int) returns (status: Status)
      requires Inv(View())
      modifies this, selector, selector.fds
      ensures View() == Unregister(old(View()), fd) && Inv(View()) && selector.fds == old(selector.fds)
      ensures status == if InvalidFd(fd) || !IsUsed(old(View()).table, fd) then SELECTOR_IARGS else SELECTOR_SUCCESS
      decreases if IsUsed(View().table, fd) && View().table.fds[fd].handler.CLIENT_HANDLER? then 2 else 0, 1
    {
      hide Unregister, Called, Balanced, Linked, Indexed, Clear, Dec;
      ghost var w := View();
      UnregisterInv(w, fd);
      if InvalidFd(fd) || !selector.fds[fd].Used() {
        UnregisterNothing(w, fd);
        return SELECTOR_IARGS;
      }
      CallThenClear(w, fd);
      HandleClose(fd);
      selector.ClearItem(fd);
      assert View() == Unregister(w, fd);
      status := SELECTOR_SUCCESS;
    }

    // -------------------------------------------------------------- sessions

    /** socks5_session_init, for the descriptor just accepted. */
    method SessionInit(fd: int, p: Pointer)
      modifies this
      ensures var w := old(View());
              View() == w.(sessions := w.sessions[p := Session(fd, 0, INVALID)], statistics := Inc(w.statistics),
                           acquired := w.acquired + multiset{fd}, obtained := w.obtained + multiset{p})
    {
      hide Inc;
      acquired, obtained := acquired + multiset{fd}, obtained + multiset{p};
      sessions := sessions[p := Session(fd, 0, INVALID)];
      IncCurrentConnection();
    }

    /** An accepted client: its session, then the registration. */
    method AcceptClient(fd: int, p: Pointer)
      requires Inv(View()) && Enabled(View(), Accept(fd, p))
      modifies this, selector, selector.fds
      ensures View() == Step(old(View()), Accept(fd, p)) && Inv(View()) && selector.fds == old(selector.fds)
    {
      AcceptInv(View(), fd, p);
      ghost var t := selector.View();
      hide Store, Balanced, Linked, Register, Indexed, Inc;
      SessionInit(fd, p);
      assert selector.View() == t;
      RegisterInTable(fd, CLIENT_HANDLER, OP_READ, p);
    }

    method RegisterInTable(fd: int, handler: Handler, interest: Interest, p: Pointer)
      requires Indexed(selector.View()) && FreshFd(View(), fd) && !handler.NO_HANDLER? && selector.fds.Length == 1025
      modifies selector, selector.fds
      ensures View() == old(View()).(table := Store(old(View()).table, fd, interest, handler, p))
      ensures selector.fds == old(selector.fds)
    {
      hide Store, Indexed;
      ghost var t := selector.View();
      var status := selector.RegisterFd(fd, handler, interest, p);
      assert (selector.View(), status) == (Store(t, fd, interest, handler, p), SELECTOR_SUCCESS);
    }

    /** What socks5_register_server notes in the session, on a descriptor just opened. */
    method NoteServer(p: Pointer, fd: int)
      requires p in sessions
      modifies this
      ensures var w := old(View());
              View() == w.(sessions := w.sessions[p := w.sessions[p].(serverFd := fd, serverState := OPEN)],
                           statistics := Inc(w.statistics), acquired := w.acquired + multiset{fd})
    {
      hide Inc;
      acquired := acquired + multiset{fd};
      sessions := sessions[p := sessions[p].(serverFd := fd, serverState := OPEN)];
      IncCurrentConnection();
    }

    /** socks5_register_server */
    method RegisterServer(p: Pointer, fd: int)
      requires Inv(View()) && Enabled(View(), Connect(p, fd))
      modifies this, selector, selector.fds
      ensures View() == Step(old(View()), Connect(p, fd)) && Inv(View()) && selector.fds == old(selector.fds)
    {
      ConnectInv(View(), p, fd);
      ghost var t := selector.View();
      hide Store, Balanced, Linked, Register, Indexed, Inc;
      NoteServer(p, fd);
      assert selector.View() == t;
      RegisterInTable(fd, SERVER_HANDLER, OP_WRITE, p);
    }

    /** socks5_close_session */
    method Close(p: Pointer)
      requires Inv(View()) && p in sessions
      modifies this, selector, selector.fds
      ensures View() == Step(old(View()), CloseSession(p)) && Inv(View()) && selector.fds == old(selector.fds)
    {
      hide Unregister, Balanced, Linked, Indexed;
      var _ := UnregisterDescriptor(sessions[p].clientFd);
    }

    /**
      The loop of selector_destroy: every descriptor still registered is unregistered, some of them by the close
      callbacks of others.  Nothing is left open, nothing was closed twice, and no session is left in memory.
     */
    method Destroy()
      requires Inv(View())
      modifies this, selector, selector.fds
      ensures Inv(View()) && sessions == map[] && closed == acquired && freed == obtained && currentConnections == 0
      ensures forall i :: 0 <= i < selector.fds.Length ==> !selector.fds[i].Used()
      ensures acquired == old(acquired) && obtained == old(obtained)
    {
      hide Unregister, Balanced, Linked, Indexed;
      var i := 0;
      while i < selector.fds.Length
        invariant Inv(View()) && i <= selector.fds.Length == 1025 && selector.fds == old(selector.fds)
        invariant forall k :: 0 <= k < i ==> !selector.fds[k].Used()
        invariant acquired == old(acquired) && obtained == old(obtained)
      {
        if selector.fds[i].Used() {
          ghost var w := View();
          UnregisterEmpties(w, i);
          var _ := UnregisterDescriptor(i);
          assert forall k :: 0 <= k < i ==> View().table.fds[k] == selector.fds[k];
        }
        i := i + 1;
      }
      EmptyTable(View());
    }
  }

  /** The world when the close callback of a client has returned. */
  function ClientClosed(w: World, p: Pointer): World
    requires Linked(w) && p in w.sessions
  {
    var w1 := if w.sessions[p].serverState.INVALID? then w else Unregister(w, w.sessions[p].serverFd);
    w1.(sessions := w1.sessions - {p}, statistics := Dec(w1.statistics),
        closed := w1.closed + multiset{w.sessions[p].clientFd}, freed := w1.freed + multiset{p})
  }

  /** The world when the close callback of an item has returned. */
  function Called(w: World, fd: int): World
    requires Linked(w) && IsUsed(w.table, fd)
  {
    assert ItemLinked(w, fd);
    var p := w.table.fds[fd].data;
    if w.table.fds[fd].handler.CLIENT_HANDLER? then ClientClosed(w, p)
    else if w.table.fds[fd].handler.SERVER_HANDLER? then
      w.(sessions := w.sessions[p := w.sessions[p].(serverState := INVALID)],
         statistics := Dec(w.statistics), closed := w.closed + multiset{fd})
    else w
  }

  /** Unregistering is the callback and then the table; the callback of a client has already changed the table. */
  lemma CallThenClear(w: World, fd: int)
    requires Inv(w) && IsUsed(w.table, fd) && !InvalidFd(fd)
    ensures var v := Called(w, fd);
            IsUsed(v.table, fd) && Unregister(w, fd) == v.(table := Clear(v.table, fd))
  {
    assert ItemLinked(w, fd);
    var p := w.table.fds[fd].data;
    hide Clear, Balanced, Dec, Indexed;
    if w.table.fds[fd].handler.CLIENT_HANDLER? {
      assert SessionLinked(w, p);
      if !w.sessions[p].serverState.INVALID? {
        UnregisterServerKeepsClient(w, p);
        ClearedItems(w.table, w.sessions[p].serverFd);
      }
    }
  }

  lemma UnregisterNothing(w: World, fd: int)
    requires Linked(w)
    ensures InvalidFd(fd) || !IsUsed(w.table, fd) ==> Unregister(w, fd) == w
  {}

  /** An unregistered item stays so, and none appears. */
  lemma UnregisterEmpties(w: World, fd: int)
    requires Inv(w) && IsUsed(w.table, fd)
    ensures var v := Unregister(w, fd);
            && |v.table.fds| == |w.table.fds| && !v.table.fds[fd].Used() && v.acquired == w.acquired
            && v.obtained == w.obtained
            && forall k :: 0 <= k < |w.table.fds| && !w.table.fds[k].Used() ==> !v.table.fds[k].Used()
  {
    hide Clear, Balanced, Dec;
    assert ItemLinked(w, fd);
    ClearedItems(w.table, fd);
    if w.table.fds[fd].handler.CLIENT_HANDLER? {
      CloseSessionCascade(w, w.table.fds[fd].data);
    }
  }

  lemma EmptyTable(w: World)
    requires Inv(w) && forall i :: 0 <= i < |w.table.fds| ==> !w.table.fds[i].Used()
    ensures w.sessions == map[] && w.closed == w.acquired && w.freed == w.obtained
            && w.statistics.currentConnections == 0
  {
    assert ConnectionFds(w.table) == {};
    if p :| p in w.sessions { SessionNeedsItem(w, p); }
    assert w.sessions == map[];
  }

  lemma SessionNeedsItem(w: World, p: Pointer)
    requires Linked(w) && p in w.sessions
    ensures exists i :: 0 <= i < |w.table.fds| && w.table.fds[i].Used()
  {
    assert SessionLinked(w, p);
    assert w.table.fds[w.sessions[p].clientFd].Used();
  }

  /** Closing the server leaves the client's item and its session where they are. */
  lemma UnregisterServerKeepsClient(w: World, p: Pointer)
    requires Inv(w) && p in w.sessions && !w.sessions[p].serverState.INVALID?
    ensures var s := w.sessions[p]; var v := Unregister(w, s.serverFd);
            && p in v.sessions && v.sessions[p] == s.(serverState := INVALID)
            && v == CloseServerItem(w, s.serverFd)
            && IsUsed(w.table, s.serverFd) && w.table.fds[s.serverFd].handler.SERVER_HANDLER?
  {
    hide Clear, Balanced, Dec;
    assert SessionLinked(w, p);
    assert ItemLinked(w, w.sessions[p].serverFd);
  }
}
