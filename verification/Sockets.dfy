/** socket.c: kern_socket, kern_bind, kern_listen, socket_bind_inbound_tcp, socket_try_accept and
    kern_close_socket, with the network acting between the polls of a close. */
module Sockets {
  import opened SocketTable

  /** What the network can do to the table in one call from the TCP engine. */
  datatype Env =
    | Inbound(port: int)                 // a connection arrives for a port
    | Changes(fd: int, state: State)     // a connected socket's connection moves on
    | Detaches(fd: int)                  // a closing socket's connection is reused

  /** One turn of a close's wait: the network is polled, or the deadline has passed. */
  datatype Tick = Poll(events: seq<Env>) | Deadline

  // ---- the backlog arrays ----

  /** socket_backlog_enqueue */
  method Enqueue(sk: Sock, c: int) returns (ok: bool, sk': Sock)
    requires Shaped(sk)
    ensures ok == (sk.count < sk.limit)
    ensures !ok ==> sk' == sk
    ensures ok ==> Shaped(sk') && sk' == sk.(fds := sk'.fds, count := sk.count + 1) && Queue(sk') == Queue(sk) + [c]
  {
    if sk.limit <= 0 || sk.count >= sk.limit || sk.count >= BACKLOG { return false, sk; }
    sk' := sk.(fds := sk.fds[sk.count := c], count := sk.count + 1);
    ok := true;
  }

  /** socket_backlog_dequeue: the oldest entry goes, the others move up. */
  method Dequeue(sk: Sock) returns (c: int, sk': Sock)
    requires Shaped(sk)
    ensures sk.count == 0 ==> c == -1 && sk' == sk
    ensures sk.count > 0 ==>
      c == Queue(sk)[0] && Shaped(sk') && sk' == sk.(fds := sk'.fds, count := sk.count - 1) &&
      Queue(sk') == Queue(sk)[1..]
  {
    if sk.count <= 0 { return -1, sk; }
    c := sk.fds[0];
    var fds := sk.fds;
    var i := 1;
    while i < sk.count
      invariant 1 <= i <= sk.count && |fds| == BACKLOG
      invariant forall k {:trigger fds[k]} :: 0 <= k < BACKLOG ==>
        fds[k] == if k < i - 1 then sk.fds[k + 1] else sk.fds[k]
    {
      fds := fds[i - 1 := fds[i]];
      i := i + 1;
    }
    sk' := sk.(fds := fds[sk.count - 1 := -1], count := sk.count - 1);
    MovedUp(sk, fds, sk');
  }

  lemma MovedUp(sk: Sock, fds: seq<int>, sk': Sock)
    requires Shaped(sk) && sk.count > 0 && |fds| == BACKLOG
    requires forall k {:trigger fds[k]} :: 0 <= k < BACKLOG ==>
      fds[k] == if k < sk.count - 1 then sk.fds[k + 1] else sk.fds[k]
    requires sk' == sk.(fds := fds[sk.count - 1 := -1], count := sk.count - 1)
    ensures Shaped(sk') && Queue(sk') == Queue(sk)[1..]
  {
    forall k | 0 <= k < sk.count - 1 ensures Queue(sk')[k] == Queue(sk)[1..][k] { assert fds[k] == sk.fds[k + 1]; }
  }

  /** socket_backlog_remove_fd */
  method RemoveFd(sk: Sock, c: int) returns (sk': Sock)
    requires Shaped(sk) && Distinct(Queue(sk))
    ensures Shaped(sk') && sk' == sk.(fds := sk'.fds, count := sk'.count) && Distinct(Queue(sk'))
    ensures forall x :: x in Queue(sk') <==> x in Queue(sk) && x != c
  {
    var i := 0;
    while i < sk.count
      invariant 0 <= i <= sk.count && c !in sk.fds[..i]
    {
      if sk.fds[i] == c {
        sk' := RemoveAt(sk, i);
        return;
      }
      i := i + 1;
    }
    sk' := sk;
  }

  method RemoveAt(sk: Sock, i: nat) returns (sk': Sock)
    requires Shaped(sk) && Distinct(Queue(sk)) && i < sk.count
    ensures Shaped(sk') && sk' == sk.(fds := sk'.fds, count := sk.count - 1) && Distinct(Queue(sk'))
    ensures forall x :: x in Queue(sk') <==> x in Queue(sk) && x != sk.fds[i]
  {
    var fds := sk.fds;
    var j := i + 1;
    while j < sk.count
      invariant i < j <= sk.count && |fds| == BACKLOG
      invariant forall k {:trigger fds[k]} :: 0 <= k < BACKLOG ==>
        fds[k] == if i <= k < j - 1 then sk.fds[k + 1] else sk.fds[k]
    {
      fds := fds[j - 1 := fds[j]];
      j := j + 1;
    }
    sk' := sk.(fds := fds[sk.count - 1 := -1], count := sk.count - 1);
    RemovedAt(Queue(sk), i, Queue(sk'));
  }

  lemma RemovedAt(q: seq<int>, i: nat, r: seq<int>)
    requires Distinct(q) && i < |q| && |r| == |q| - 1 && forall k {:trigger r[k]} :: 0 <= k < |r| ==>
      r[k] == if k < i then q[k] else q[k + 1]
    ensures Distinct(r) && forall x :: x in r <==> x in q && x != q[i]
  {
    forall x | x in q && x != q[i] ensures x in r {
      var k :| 0 <= k < |q| && q[k] == x;
      assert r[if k < i then k else k - 1] == x;
    }
  }

  // ---- the table ----

  class Net {
    var table: seq<Sock>

    constructor ()
      ensures Good(table, {}) && forall x :: 0 <= x < MAX_SOCKETS ==> table[x].state == Unused
    {
      table := seq(MAX_SOCKETS, x => Cleared());
    }

    /** socket_alloc_entry: the first unused entry, freshly initialised. */
    method Alloc(ghost held: set<int>) returns (c: int)
      requires Good(table, held)
      modifies this
      ensures Good(table, held)
      ensures c == -1 ==> table == old(table) && forall x :: 0 <= x < MAX_SOCKETS ==> table[x].state != Unused
      ensures c != -1 ==>
        0 <= c < MAX_SOCKETS && old(table)[c].state == Unused && table == old(table)[c := Fresh()] &&
        c !in held
    {
      var i := 0;
      while i < MAX_SOCKETS
        invariant 0 <= i <= MAX_SOCKETS && table == old(table) && forall x :: 0 <= x < i ==> table[x].state != Unused
      {
        if table[i].state == Unused {
          LooseUpdate(table, held, i, Fresh());
          table := table[i := Fresh()];
          return i;
        }
        i := i + 1;
      }
      c := -1;
    }

    /** kern_socket, for a stream or another kind of socket. */
    method Socket(stream: bool) returns (fd: int)
      requires Good(table, {})
      modifies this
      ensures Good(table, {}) && (fd == -1 ==> table == old(table))
      ensures fd != -1 ==>
        0 <= fd < MAX_SOCKETS && old(table)[fd].state == Unused && table == old(table)[fd := Fresh().(stream := stream)]
    {
      fd := Alloc({});
      if fd < 0 { return -1; }
      UpdateKeeps(table, {}, fd, table[fd].(stream := stream));
      table := table[fd := table[fd].(stream := stream)];
    }

    /** kern_bind. The demand: the socket is fresh. */
    method Bind(fd: int, port: int) returns (ok: bool)
      requires Good(table, {}) &&
        (0 <= fd < MAX_SOCKETS ==> table[fd].state == Unused || table[fd].state == Created || table[fd].state == Bound)
      modifies this
      ensures Good(table, {}) && ok == (0 <= fd < MAX_SOCKETS && old(table)[fd].state != Unused)
      ensures table == if ok then old(table)[fd := old(table)[fd].(port := port, state := Bound)] else old(table)
    {
      if fd < 0 || fd >= MAX_SOCKETS { return false; }
      if table[fd].state == Unused { return false; }
      UpdateKeeps(table, {}, fd, table[fd].(port := port, state := Bound));
      table := table[fd := table[fd].(port := port, state := Bound)];
      ok := true;
    }

    /** kern_listen. The demand: no connection hangs off the socket. */
    method Listen(fd: int, backlog: int) returns (ok: bool)
      requires Good(table, {}) && (0 <= fd < MAX_SOCKETS ==> !table[fd].conn)
      modifies this
      ensures Good(table, {}) && (!ok ==> table == old(table))
      ensures ok ==>
        0 <= fd < MAX_SOCKETS && old(table)[fd].stream &&
        (old(table)[fd].state == Bound || old(table)[fd].state == Created) && old(table)[fd].port != 0
      ensures ok ==> table == old(table)[fd := old(table)[fd].(state := Listening, fds := NoFds(), count := 0,
        limit := if backlog <= 0 then 1 else if backlog > BACKLOG then BACKLOG else backlog)]
    {
      if fd < 0 || fd >= MAX_SOCKETS { return false; }
      if !table[fd].stream { return false; }
      if table[fd].state != Bound && table[fd].state != Created { return false; }
      if table[fd].port == 0 { return false; }
      var limit := if backlog <= 0 then 1 else if backlog > BACKLOG then BACKLOG else backlog;
      var sk := table[fd].(state := Listening, fds := NoFds(), count := 0, limit := limit);
      LooseUpdate(table, {}, fd, sk);
      table := table[fd := sk];
      ok := true;
    }

    /** socket_find_listener_by_port */
    method FindListener(port: int) returns (p: int)
      requires |table| == MAX_SOCKETS
      ensures p == -1 ==> forall x :: 0 <= x < MAX_SOCKETS ==>
        !(table[x].state == Listening && table[x].stream && table[x].port == port)
      ensures p != -1 ==>
        0 <= p < MAX_SOCKETS && table[p].state == Listening && table[p].stream &&
        table[p].port == port
    {
      p := 0;
      while p < MAX_SOCKETS
        invariant 0 <= p <= MAX_SOCKETS && forall x :: 0 <= x < p ==>
          !(table[x].state == Listening && table[x].stream && table[x].port == port)
      {
        if table[p].state == Listening && table[p].stream && table[p].port == port { return; }
        p := p + 1;
      }
      p := -1;
    }

    /** socket_bind_inbound_tcp: a child for the listener, at the end of its backlog. */
    method BindInbound(port: int, ghost held: set<int>) returns (c: int)
      requires Good(table, held)
      modifies this
      ensures Good(table, held) && (c == -1 ==> table == old(table))
      ensures c != -1 ==>
        0 <= c < MAX_SOCKETS && old(table)[c].state == Unused && c !in held &&
        exists p :: JoinedTo(old(table), table, p, c, port)
    {
      var p := FindListener(port);
      if p < 0 { return -1; }
      if table[p].count >= table[p].limit { return -1; }
      c := Alloc(held);
      if c < 0 { return -1; }
      var child := table[c].(stream := true, state := Connected, port := table[p].port, conn := true, parent := p,
        pending := true);
      var ok, listener := Enqueue(table[p], c);
      QueueFresh(table, held, p, c, listener);
      JoinKeeps(table, held, p, c, child, listener);
      table := table[c := child][p := listener];
      assert JoinedTo(old(table), table, p, c, port);
    }

    /** A connected socket's own fields change. */
    method Move(fd: int, sk: Sock, ghost held: set<int>)
      requires Good(table, held) && 0 <= fd < MAX_SOCKETS && SameLinks(table[fd], sk) && SockGood(sk)
      requires sk.state != Unused && sk.port == table[fd].port &&
        (sk.state == Listening <==> table[fd].state == Listening)
      modifies this
      ensures Good(table, held) && Quiet(old(table), table, -1)
    {
      UpdateKeeps(table, held, fd, sk);
      table := table[fd := sk];
    }

    /** One call from the network into the table. */
    method Network(ev: Env, ghost held: set<int>)
      requires Good(table, held)
      modifies this
      ensures Good(table, held) && Quiet(old(table), table, -1)
    {
      match ev {
        case Inbound(port) =>
          var c := BindInbound(port, held);
        case Changes(fd, state) =>
          if 0 <= fd < MAX_SOCKETS && table[fd].conn && (state == Connected || state == Closed || state == CloseWait) {
            Move(fd, table[fd].(state := state), held);
          }
        case Detaches(fd) =>
          if 0 <= fd < MAX_SOCKETS && table[fd].conn && (table[fd].state == Closed || table[fd].closing) {
            Move(fd, table[fd].(conn := false, closing := false, state := Closed), held);
          }
      }
    }

    /** network_poll */
    method PollNetwork(events: seq<Env>, ghost held: set<int>)
      requires Good(table, held)
      modifies this
      ensures Good(table, held) && Quiet(old(table), table, -1)
    {
      var k := 0;
      while k < |events|
        invariant 0 <= k <= |events| && Good(table, held) && Quiet(old(table), table, -1)
      {
        ghost var mid := table;
        Network(events[k], held);
        QuietTwice(old(table), mid, table, -1);
        k := k + 1;
      }
    }

    /** The wait of a close: polls until the socket is closed, or the deadline has passed. */
    method WaitClosed(fd: int, script: seq<Tick>, ghost held: set<int>) returns (rest: seq<Tick>)
      requires Good(table, held) && 0 <= fd < MAX_SOCKETS
      modifies this
      ensures Good(table, held) && Quiet(old(table), table, -1)
    {
      rest := script;
      while |rest| > 0
        invariant Good(table, held) && Quiet(old(table), table, -1)
        decreases |rest|
      {
        var tick := rest[0];
        rest := rest[1..];
        if tick.Deadline? { return; }
        ghost var mid := table;
        PollNetwork(tick.events, held);
        QuietTwice(old(table), mid, table, -1);
        if table[fd].state == Closed || table[fd].state == Unused { return; }
      }
    }

    /** socket_release_entry */
    method Release(fd: int, ghost held: set<int>)
      requires Good(table, held) && 0 <= fd < MAX_SOCKETS && Free(table[fd])
      modifies this
      ensures Good(table, held) && table == old(table)[fd := Cleared()]
    {
      FreeUpdate(table, held, fd, Cleared());
      table := table[fd := Cleared()];
    }

    /** The end of kern_close_socket, for a socket out of every backlog. */
    method Finish(fd: int, script: seq<Tick>, ghost held: set<int>) returns (rest: seq<Tick>)
      requires Good(table, held) && 0 <= fd < MAX_SOCKETS && Free(table[fd]) && table[fd].state != Unused
      modifies this
      ensures Good(table, held) && Quiet(old(table), table, fd) && table[fd] == Cleared()
      ensures old(table)[fd].state == Closed ==> table == old(table)[fd := Cleared()]
    {
      rest := script;
      if table[fd].state == Closed {
        Release(fd, held);
        return;
      }
      if table[fd].conn {
        UpdateKeeps(table, held, fd, table[fd].(closing := true));
        table := table[fd := table[fd].(closing := true)];
        ghost var mid := table;
        rest := WaitClosed(fd, script, held);
        QuietExcept(old(table), mid, table, fd);
      }
      Release(fd, held);
    }

    /** kern_close_socket. A listener's waiting children are closed with it; held are the children such a close still
        has in hand. */
    method Close(fd: int, script: seq<Tick>, ghost held: set<int>) returns (ok: bool, rest: seq<Tick>)
      requires Good(table, held) && fd !in held &&
        (0 <= fd < MAX_SOCKETS && table[fd].state == Listening ==> held == {})
      modifies this
      ensures Good(table, held) && ok == (0 <= fd < MAX_SOCKETS) && (!ok ==> table == old(table))
      ensures ok ==> table[fd].state == Unused && (Loose(old(table)[fd]) ==> Quiet(old(table), table, fd))
      ensures ok && Loose(old(table)[fd]) && old(table)[fd].state == Closed ==> table == old(table)[fd := Cleared()]
      decreases if 0 <= fd < |table| && table[fd].state == Listening then 1 else 0, 1
    {
      rest := script;
      if fd < 0 || fd >= MAX_SOCKETS { return false, rest; }
      ok := true;
      if table[fd].state == Unused { return; }
      if table[fd].state == Listening {
        var children := table[fd].fds[..table[fd].count];
        var listener := table[fd].(count := 0, limit := 0, fds := NoFds());
        TakeAllKeeps(table, fd, listener, Fds(children));
        table := table[fd := listener];
        rest := CloseChildren(fd, children, rest);
      }
      if table[fd].parent >= 0 && table[fd].parent < MAX_SOCKETS {
        Unlink(fd, held);
      }
      rest := Finish(fd, rest, held);
    }

    /** The listener's loop over the children it had waiting. None is queued in their place, however many connections
        arrive. */
    method CloseChildren(fd: int, children: seq<int>, script: seq<Tick>) returns (rest: seq<Tick>)
      requires 0 <= fd < MAX_SOCKETS && Distinct(children) && Good(table, Fds(children))
      requires table[fd].state == Listening && table[fd].limit == 0 && fd !in children
      modifies this
      ensures Good(table, {}) && table[fd].state == Listening && table[fd].limit == 0 && table[fd].count == 0
      decreases 1, 0
    {
      rest := script;
      var i := 0;
      while i < |children|
        invariant 0 <= i <= |children| && Good(table, Fds(children[i..]))
        invariant table[fd].state == Listening && table[fd].limit == 0 && table[fd].count == 0
      {
        var c := children[i];
        HeldNext(children, i);
        ghost var others := Fds(children[i + 1..]);
        if c >= 0 && c < MAX_SOCKETS {
          DropKeeps(table, Fds(children[i..]), c, table[c].(parent := -1, pending := false));
          table := table[c := table[c].(parent := -1, pending := false)];
          var done;
          done, rest := Close(c, rest, others);
        }
        i := i + 1;
      }
      assert Fds(children[i..]) == {};
    }

    /** A pending child leaves its parent's backlog. */
    method Unlink(fd: int, ghost held: set<int>)
      requires Good(table, held) && 0 <= fd < MAX_SOCKETS && table[fd].pending && fd !in held
      modifies this
      ensures Good(table, held) && |table| == |old(table)| &&
        table[fd] == old(table)[fd].(parent := -1, pending := false)
    {
      var p := table[fd].parent;
      assert ChildGood(table, held, fd);
      var listener := RemoveFd(table[p], fd);
      LeaveKeeps(table, held, p, fd, table[fd].(parent := -1, pending := false), listener);
      table := table[fd := table[fd].(parent := -1, pending := false)][p := listener];
    }

    /** socket_try_accept: the oldest child still open; closed ones in front of it are dropped. */
    method TryAccept(fd: int) returns (child: int)
      requires Good(table, {})
      modifies this
      ensures Good(table, {})
      ensures !(0 <= fd < MAX_SOCKETS && old(table)[fd].state == Listening) ==> child == -1 && table == old(table)
      ensures 0 <= fd < MAX_SOCKETS && old(table)[fd].state == Listening ==> Accepted(old(table), table, fd, child)
    {
      if fd < 0 || fd >= MAX_SOCKETS { return -1; }
      if table[fd].state != Listening { return -1; }
      ghost var t0, q, k := table, Queue(table[fd]), 0;
      ProgressStart(t0, fd);
      while true
        invariant Good(table, {}) && 0 <= k <= |q| && Progress(t0, table, fd, k, k)
        decreases |q| - k
      {
        ghost var mid := table;
        var c, listener := Dequeue(table[fd]);
        HeadInRange(mid, fd);
        if c < 0 { return -1; }
        HeadLeaves(t0, mid, fd, k, c, listener);
        table := table[c := table[c].(parent := -1, pending := false)][fd := listener];
        if table[c].state != Closed { return c; }
        mid := table;
        var done, rest := Close(c, [], {});
        ProgressClose(t0, mid, table, fd, k);
        k := k + 1;
      }
    }
  }

  /** The first n of the waiting children have left the backlog of fd; of those, the first k had closed and are
      released. */
  ghost predicate Progress(t0: seq<Sock>, t: seq<Sock>, fd: int, k: int, n: int)
  {
    && |t0| == |t| == MAX_SOCKETS && 0 <= fd < MAX_SOCKETS && Shaped(t0[fd]) && Shaped(t[fd]) && 0 <= k <= n <= k + 1
    && n <= t0[fd].count
    && t[fd] == t0[fd].(fds := t[fd].fds, count := t0[fd].count - n) && Queue(t[fd]) == Queue(t0[fd])[n..]
    && (forall x :: 0 <= x < MAX_SOCKETS && x != fd && x !in Queue(t0[fd])[..n] ==> t[x] == t0[x])
    && (forall j :: 0 <= j < k ==> ReleasedChild(t0, t, Queue(t0[fd])[j]))
    && (n == k + 1 ==> TakenChild(t0, t, Queue(t0[fd])[k]))
  }

  ghost predicate ReleasedChild(t0: seq<Sock>, t: seq<Sock>, c: int)
    requires |t0| == |t| == MAX_SOCKETS
  {
    0 <= c < MAX_SOCKETS && t0[c].state == Closed && t[c] == Cleared()
  }

  ghost predicate TakenChild(t0: seq<Sock>, t: seq<Sock>, c: int)
    requires |t0| == |t| == MAX_SOCKETS
  {
    0 <= c < MAX_SOCKETS && t[c] == t0[c].(parent := -1, pending := false)
  }

  /** What accept returns: the first waiting child that has not closed, or nothing if all have. */
  ghost predicate Accepted(t0: seq<Sock>, t: seq<Sock>, fd: int, child: int)
    requires |t0| == MAX_SOCKETS && 0 <= fd < MAX_SOCKETS && Shaped(t0[fd])
  {
    if child == -1 then Progress(t0, t, fd, t0[fd].count, t0[fd].count)
    else exists k ::
    0 <= k < t0[fd].count && Progress(t0, t, fd, k, k + 1) && Queue(t0[fd])[k] == child &&
    t0[child].state != Closed
  }

  lemma ProgressStart(t: seq<Sock>, fd: int)
    requires Good(t, {}) && 0 <= fd < MAX_SOCKETS
    ensures Progress(t, t, fd, 0, 0)
  {}

  lemma HeadLeaves(t0: seq<Sock>, t: seq<Sock>, fd: int, k: nat, c: int, listener: Sock)
    requires Good(t, {}) && Progress(t0, t, fd, k, k) && t[fd].state == Listening && t[fd].count > 0 &&
      c == Queue(t[fd])[0]
    requires Shaped(listener) && listener == t[fd].(fds := listener.fds, count := t[fd].count - 1) &&
      Queue(listener) == Queue(t[fd])[1..]
    ensures 0 <= c < MAX_SOCKETS && c != fd && c == Queue(t0[fd])[k]
    ensures var t' := t[c := t[c].(parent := -1, pending := false)][fd := listener];
      Good(t', {}) && Progress(t0, t', fd, k, k + 1) && Loose(t'[c])
  {
    var q := Queue(t[fd]);
    assert BacklogGood(t, {}, fd) && c in q && EntryGood(t, {}, fd, c);
    TailDistinct(q);
    LeaveKeeps(t, {}, fd, c, t[c].(parent := -1, pending := false), listener);
    NextInQueue(Queue(t0[fd]), k);
  }

  lemma HeadInRange(t: seq<Sock>, fd: int)
    requires Good(t, {}) && 0 <= fd < MAX_SOCKETS
    ensures t[fd].count > 0 ==> Queue(t[fd])[0] >= 0
  {
    assert BacklogGood(t, {}, fd);
    if t[fd].count > 0 { assert Queue(t[fd])[0] in Queue(t[fd]) && EntryGood(t, {}, fd, Queue(t[fd])[0]); }
  }

  lemma TailDistinct(q: seq<int>)
    requires Distinct(q) && |q| > 0
    ensures Distinct(q[1..]) && forall x :: x in q[1..] <==> x in q && x != q[0]
  {
    assert q == [q[0]] + q[1..];
  }

  lemma NextInQueue(q: seq<int>, k: nat)
    requires k < |q|
    ensures q[k..][0] == q[k] && q[k..][1..] == q[k + 1..] && q[..k + 1] == q[..k] + [q[k]]
  {}

  lemma ProgressClose(t0: seq<Sock>, mid: seq<Sock>, t: seq<Sock>, fd: int, k: nat)
    requires Progress(t0, mid, fd, k, k + 1) && k < t0[fd].count && Distinct(Queue(t0[fd])) && Queue(t0[fd])[k] != fd
    requires var c := Queue(t0[fd])[k]; mid[c].state == Closed && t == mid[c := Cleared()]
    ensures Progress(t0, t, fd, k + 1, k + 1)
  {
    var q := Queue(t0[fd]);
    NextInQueue(q, k);
    forall j | 0 <= j < k + 1 ensures ReleasedChild(t0, t, q[j]) {
      if j < k { assert ReleasedChild(t0, mid, q[j]) && q[j] != q[k]; } else { assert TakenChild(t0, mid, q[k]); }
    }
  }

  ghost function Fds(q: seq<int>): set<int> { set x | x in q }

  lemma HeldNext(children: seq<int>, i: nat)
    requires Distinct(children) && i < |children|
    ensures children[i] in Fds(children[i..]) && children[i] !in Fds(children[i + 1..])
    ensures Fds(children[i..]) - {children[i]} == Fds(children[i + 1..])
  {
    var a, b := Fds(children[i..]), Fds(children[i + 1..]);
    assert children[i..] == [children[i]] + children[i + 1..];
    forall x | x in b ensures x != children[i] {
      var k :| 0 <= k < |children| - i - 1 && children[i + 1..][k] == x;
      assert children[i + 1 + k] == x;
    }
  }

  /** What the network leaves of a socket in use: its links, and everything already in its backlog. */
  ghost predicate Kept(a: Sock, b: Sock)
  {
    a.state != Unused ==>
      && b.state != Unused && b.parent == a.parent && b.pending == a.pending && b.limit == a.limit && b.port == a.port
      && (a.state == Listening <==> b.state == Listening) && Shaped(a) && Shaped(b) && Queue(a) <= Queue(b)
  }

  ghost predicate Quiet(t: seq<Sock>, t': seq<Sock>, except: int)
  {
    |t| == |t'| == MAX_SOCKETS && forall x :: 0 <= x < MAX_SOCKETS && x != except ==> Kept(t[x], t'[x])
  }

  lemma QuietTwice(t: seq<Sock>, u: seq<Sock>, v: seq<Sock>, except: int)
    requires Quiet(t, u, except) && Quiet(u, v, except)
    ensures Quiet(t, v, except)
  {
    forall x | 0 <= x < MAX_SOCKETS && x != except
      ensures Kept(t[x], v[x])
    {
      assert Kept(t[x], u[x]) && Kept(u[x], v[x]);
    }
  }

  lemma QuietExcept(t: seq<Sock>, u: seq<Sock>, v: seq<Sock>, fd: int)
    requires |t| == |u| == MAX_SOCKETS && 0 <= fd < MAX_SOCKETS && u == t[fd := u[fd]] && Quiet(u, v, -1)
    ensures Quiet(t, v, fd)
  {
    forall x | 0 <= x < MAX_SOCKETS && x != fd ensures Kept(t[x], v[x]) { assert Kept(u[x], v[x]); }
  }

  /** Out of every backlog, and with an empty one. */
  ghost predicate Free(sk: Sock) { !sk.pending && Shaped(sk) && sk.limit == 0 }

  lemma FreeUpdate(t: seq<Sock>, held: set<int>, x: int, sk: Sock)
    requires Good(t, held) && 0 <= x < MAX_SOCKETS && Free(t[x]) && SockGood(sk) && sk.count == 0 && !sk.pending
    ensures Good(t[x := sk], held)
  {
    var t' := t[x := sk];
    forall c | 0 <= c < MAX_SOCKETS ensures ChildGood(t', held, c) { assert ChildGood(t, held, c); }
    forall p | 0 <= p < MAX_SOCKETS ensures BacklogGood(t', held, p) {
      assert BacklogGood(t, held, p);
      forall c | c in Queue(t'[p]) ensures EntryGood(t', held, p, c) { assert p != x && EntryGood(t, held, p, c); }
    }
  }

  /** Child c has joined the backlog of listener p, and nothing else has changed. */
  ghost predicate JoinedTo(t: seq<Sock>, t': seq<Sock>, p: int, c: int, port: int)
  {
    && |t| == |t'| == MAX_SOCKETS && 0 <= p < MAX_SOCKETS && 0 <= c < MAX_SOCKETS && p != c && Shaped(t[p])
    && Shaped(t'[p])
    && t[p].state == Listening && t[p].port == port && t[p].count < t[p].limit
    && t'[p] == t[p].(fds := t'[p].fds, count := t[p].count + 1) && Queue(t'[p]) == Queue(t[p]) + [c]
    && t'[c] == Fresh().(stream := true, state := Connected, port := port, conn := true, parent := p, pending := true)
    && forall x :: 0 <= x < MAX_SOCKETS && x != p && x != c ==> t'[x] == t[x]
  }

  lemma QueueFresh(t: seq<Sock>, held: set<int>, p: int, c: int, listener: Sock)
    requires Good(t, held) && 0 <= p < MAX_SOCKETS && 0 <= c < MAX_SOCKETS && t[p].state == Listening && !t[c].pending
    requires Shaped(listener) && Queue(listener) == Queue(t[p]) + [c]
    ensures Distinct(Queue(listener)) && c !in Queue(t[p])
  {
    assert BacklogGood(t, held, p);
    DistinctSnoc(Queue(t[p]), c);
  }

  lemma DistinctSnoc(q: seq<int>, c: int)
    requires Distinct(q) && c !in q
    ensures Distinct(q + [c])
  {}

  // ---- what the invariant means ----

  /** Each pending child sits in exactly one place of exactly one backlog, that of its parent. */
  lemma OneToOne(t: seq<Sock>, c: int, p: int, i: nat, q: int, j: nat)
    requires Good(t, {}) && 0 <= c < MAX_SOCKETS && 0 <= p < MAX_SOCKETS && 0 <= q < MAX_SOCKETS && i < t[p].count &&
      j < t[q].count
    ensures t[c].pending ==> t[t[c].parent].state == Listening && c in Queue(t[t[c].parent])
    ensures Queue(t[p])[i] == c ==> t[c].pending && t[c].parent == p
    ensures Queue(t[p])[i] == c && Queue(t[q])[j] == c ==> p == q && i == j
  {
    assert ChildGood(t, {}, c) && BacklogGood(t, {}, p) && BacklogGood(t, {}, q);
    assert Queue(t[p])[i] in Queue(t[p]) && Queue(t[q])[j] in Queue(t[q]);
  }

  /** A closed listener leaves no orphan, and a backlog never exceeds its limit. */
  lemma NoOrphan(t: seq<Sock>, p: int, c: int)
    requires Good(t, {}) && 0 <= p < MAX_SOCKETS && 0 <= c < MAX_SOCKETS && t[p].state != Listening
    ensures t[c].parent != p && t[p].count == 0
  {
    assert ChildGood(t, {}, c);
  }

  // ---- any run ----

  datatype Request =
    | Open(stream: bool) | Name(fd: int, port: int) | Wait(fd: int, backlog: int)
    | Accept(fd: int) | Shut(fd: int, script: seq<Tick>) | Arrive(ev: Env)

  /** The demands on callers: bind only fresh sockets, listen only on unconnected ones. */
  predicate Allowed(t: seq<Sock>, r: Request)
    requires |t| == MAX_SOCKETS
  {
    match r
    case Name(fd, port) => 0 <= fd < MAX_SOCKETS ==>
    t[fd].state == Unused || t[fd].state == Created || t[fd].state == Bound
    case Wait(fd, backlog) => 0 <= fd < MAX_SOCKETS ==> !t[fd].conn
    case _ => true
  }

  /** Any interleaving of calls and network events, each close with network activity of its own, keeps the
      correspondence. */
  method Run(net: Net, requests: seq<Request>)
    requires Good(net.table, {})
    modifies net
    ensures Good(net.table, {})
  {
    var k := 0;
    while k < |requests|
      invariant 0 <= k <= |requests| && Good(net.table, {})
    {
      if Allowed(net.table, requests[k]) { Serve(net, requests[k]); }
      k := k + 1;
    }
  }

  method Serve(net: Net, r: Request)
    requires Good(net.table, {}) && Allowed(net.table, r)
    modifies net
    ensures Good(net.table, {})
    ensures r.Shut? && 0 <= r.fd < MAX_SOCKETS ==> forall c :: 0 <= c < MAX_SOCKETS ==> net.table[c].parent != r.fd
  {
    match r {
      case Open(stream) => var fd := net.Socket(stream);
      case Name(fd, port) => var ok := net.Bind(fd, port);
      case Wait(fd, backlog) => var ok := net.Listen(fd, backlog);
      case Accept(fd) => var c := net.TryAccept(fd);
      case Shut(fd, script) =>
        var ok, rest := net.Close(fd, script, {});
        if ok { forall c | 0 <= c < MAX_SOCKETS ensures net.table[c].parent != fd { NoOrphan(net.table, fd, c); } }
      case Arrive(ev) => net.Network(ev, {});
    }
  }
}
