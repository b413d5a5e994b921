/** The accept backlog of socket.c: the table-wide invariant and how single updates keep it. */
module SocketTable {

  const MAX_SOCKETS := 64
  const BACKLOG := 4        // SOCK_ACCEPT_BACKLOG_SIZE

  datatype State = Unused | Created | Bound | Listening | Connected | Closed | CloseWait

  /** The fields of struct kern_socket the backlog depends on. */
  datatype Sock = Sock(
    state: State, stream: bool, port: int, conn: bool, udp: bool,
    fds: seq<int>, count: int, limit: int, parent: int, pending: bool, closing: bool)

  function NoFds(): (s: seq<int>)
    ensures |s| == BACKLOG && forall k :: 0 <= k < BACKLOG ==> s[k] == -1
  {
    [-1, -1, -1, -1]
  }

  /** socket_init_entry */
  function Fresh(): Sock { Sock(Created, false, 0, false, false, NoFds(), 0, 0, -1, false, false) }

  /** socket_release_entry leaves zeroes, but for the parent. */
  function Cleared(): Sock { Sock(Unused, false, 0, false, false, [0, 0, 0, 0], 0, 0, -1, false, false) }

  ghost predicate Shaped(sk: Sock)
  {
    |sk.fds| == BACKLOG && 0 <= sk.count <= sk.limit <= BACKLOG
  }

  /** The children waiting to be accepted, oldest first. */
  ghost function Queue(sk: Sock): seq<int>
    requires Shaped(sk)
  {
    sk.fds[..sk.count]
  }

  ghost predicate Distinct(q: seq<int>)
  {
    forall i, j :: 0 <= i < j < |q| ==> q[i] != q[j]
  }

  /** A socket on its own. */
  ghost predicate SockGood(sk: Sock)
  {
    && Shaped(sk) && Distinct(Queue(sk))
    && (sk.state != Listening ==> sk.count == 0 && sk.limit == 0)
    && (sk.state == Listening ==> !sk.conn && sk.parent == -1 && sk.port != 0)
    && (sk.state == Unused ==> !sk.conn && sk.parent == -1)
    && (sk.pending <==> sk.parent != -1)
    && (sk.pending ==>
         0 <= sk.parent < MAX_SOCKETS &&
         (sk.state == Connected || sk.state == Closed || sk.state == CloseWait))
  }

  /** A pending child is in its parent's backlog, or in the hands of a close in progress. */
  ghost predicate ChildGood(t: seq<Sock>, held: set<int>, c: int)
    requires |t| == MAX_SOCKETS && 0 <= c < MAX_SOCKETS
  {
    t[c].pending ==>
    c in held ||
    (0 <= t[c].parent < MAX_SOCKETS && Shaped(t[t[c].parent]) && t[t[c].parent].state == Listening &&
    c in Queue(t[t[c].parent]))
  }

  /** A backlog entry is a pending child of this listener. */
  ghost predicate EntryGood(t: seq<Sock>, held: set<int>, p: int, c: int)
    requires |t| == MAX_SOCKETS
  {
    0 <= c < MAX_SOCKETS && t[c].pending && t[c].parent == p && c !in held
  }

  ghost predicate BacklogGood(t: seq<Sock>, held: set<int>, p: int)
    requires |t| == MAX_SOCKETS && 0 <= p < MAX_SOCKETS
  {
    Shaped(t[p]) && forall c :: c in Queue(t[p]) ==> EntryGood(t, held, p, c)
  }

  /** Pending children and backlog entries correspond one to one, apart from the children in held. */
  ghost predicate Good(t: seq<Sock>, held: set<int>)
  {
    && |t| == MAX_SOCKETS
    && (forall x :: 0 <= x < MAX_SOCKETS ==> SockGood(t[x]))
    && (forall c :: 0 <= c < MAX_SOCKETS ==> ChildGood(t, held, c))
    && (forall p :: 0 <= p < MAX_SOCKETS ==> BacklogGood(t, held, p))
    && (forall c :: c in held ==> 0 <= c < MAX_SOCKETS && t[c].pending)
  }

  // ---- single updates ----

  /** Replacing x by a socket with the same place in the web of parents and backlogs. */
  ghost predicate SameLinks(a: Sock, b: Sock)
  {
    b.parent == a.parent && b.pending == a.pending && b.fds == a.fds && b.count == a.count && b.limit == a.limit &&
    (a.state == Listening <==> b.state == Listening)
  }

  lemma UpdateKeeps(t: seq<Sock>, held: set<int>, x: int, sk: Sock)
    requires Good(t, held) && 0 <= x < MAX_SOCKETS && SameLinks(t[x], sk) && SockGood(sk)
    ensures Good(t[x := sk], held)
  {
    var t' := t[x := sk];
    forall c | 0 <= c < MAX_SOCKETS ensures ChildGood(t', held, c) { assert ChildGood(t, held, c); }
    forall p | 0 <= p < MAX_SOCKETS ensures BacklogGood(t', held, p) {
      assert BacklogGood(t, held, p) && Queue(t'[p]) == Queue(t[p]);
    }
  }

  /** A socket outside the web may be replaced by another outside it. */
  ghost predicate Loose(sk: Sock) { sk.state != Listening && !sk.pending }

  lemma LooseUpdate(t: seq<Sock>, held: set<int>, x: int, sk: Sock)
    requires Good(t, held) && 0 <= x < MAX_SOCKETS && Loose(t[x]) && SockGood(sk) && sk.count == 0 && !sk.pending
    ensures Good(t[x := sk], held)
  {
    var t' := t[x := sk];
    forall c | 0 <= c < MAX_SOCKETS ensures ChildGood(t', held, c) {
      assert ChildGood(t, held, c);
      if t[c].pending && c !in held { assert t[t[c].parent].state == Listening; }
    }
    forall p | 0 <= p < MAX_SOCKETS ensures BacklogGood(t', held, p) {
      assert BacklogGood(t, held, p);
      forall c | c in Queue(t'[p]) ensures EntryGood(t', held, p, c) { assert p != x && EntryGood(t, held, p, c); }
    }
  }

  /** A new child c of listener p joins the end of its backlog. */
  ghost function Joined(t: seq<Sock>, p: int, c: int, child: Sock, listener: Sock): seq<Sock>
    requires 0 <= p < |t| && 0 <= c < |t|
  {
    t[c := child][p := listener]
  }

  lemma JoinKeeps(t: seq<Sock>, held: set<int>, p: int, c: int, child: Sock, listener: Sock)
    requires Good(t, held) && 0 <= p < MAX_SOCKETS && 0 <= c < MAX_SOCKETS && p != c && t[p].state == Listening &&
      Loose(t[c]) && c !in held
    requires SockGood(child) && child.pending && child.parent == p && child.state == Connected
    requires SockGood(listener) && listener.state == Listening && Queue(listener) == Queue(t[p]) + [c] &&
      !listener.pending
    ensures Good(Joined(t, p, c, child, listener), held)
  {
    var t' := Joined(t, p, c, child, listener);
    forall x | 0 <= x < MAX_SOCKETS ensures ChildGood(t', held, x) {
      assert ChildGood(t, held, x);
      assert c in Queue(listener) by { assert Queue(listener)[|Queue(listener)| - 1] == c; }
      if x != c && t[x].pending && x !in held && t[x].parent == p { InPrefix(Queue(t[p]), c, x); }
    }
    forall q | 0 <= q < MAX_SOCKETS ensures BacklogGood(t', held, q) {
      assert BacklogGood(t, held, q);
      forall x | x in Queue(t'[q]) ensures EntryGood(t', held, q, x) {
        if x != c { assert x in Queue(t[q]) && EntryGood(t, held, q, x); }
      }
    }
  }

  lemma InPrefix(q: seq<int>, c: int, x: int)
    requires x in q
    ensures x in q + [c]
  {}

  /** Child c leaves the backlog of p, and is no longer pending. */
  lemma LeaveKeeps(t: seq<Sock>, held: set<int>, p: int, c: int, child: Sock, listener: Sock)
    requires Good(t, held) && 0 <= p < MAX_SOCKETS && 0 <= c < MAX_SOCKETS && c in Queue(t[p])
    requires SockGood(child) && !child.pending && child.state != Listening && SockGood(listener) &&
      listener.state == Listening && !listener.pending
    requires forall x :: x in Queue(listener) <==> x in Queue(t[p]) && x != c
    ensures p != c && Good(Joined(t, p, c, child, listener), held)
  {
    assert EntryGood(t, held, p, c) by { assert BacklogGood(t, held, p); }
    var t' := Joined(t, p, c, child, listener);
    forall x | 0 <= x < MAX_SOCKETS ensures ChildGood(t', held, x) { assert ChildGood(t, held, x); }
    forall q | 0 <= q < MAX_SOCKETS ensures BacklogGood(t', held, q) {
      assert BacklogGood(t, held, q);
      forall x | x in Queue(t'[q]) ensures EntryGood(t', held, q, x) { assert EntryGood(t, held, q, x); }
    }
  }

  /** A listener starts to close: its children pass into the hands of the close. */
  lemma TakeAllKeeps(t: seq<Sock>, p: int, listener: Sock, mine: set<int>)
    requires Good(t, {}) && 0 <= p < MAX_SOCKETS && t[p].state == Listening
    requires SockGood(listener) && listener.state == Listening && listener.count == 0 && !listener.pending
    requires forall x :: x in mine <==> x in Queue(t[p])
    ensures Good(t[p := listener], mine)
  {
    var t' := t[p := listener];
    assert BacklogGood(t, {}, p);
    forall c | c in mine ensures 0 <= c < MAX_SOCKETS && t'[c].pending && c != p { assert EntryGood(t, {}, p, c); }
    forall x | 0 <= x < MAX_SOCKETS ensures ChildGood(t', mine, x) { assert ChildGood(t, {}, x); }
    forall q | 0 <= q < MAX_SOCKETS ensures BacklogGood(t', mine, q) {
      assert BacklogGood(t, {}, q);
      forall x | x in Queue(t'[q]) ensures EntryGood(t', mine, q, x) {
        assert EntryGood(t, {}, q, x);
      }
    }
  }

  /** A held child is let go of. */
  lemma DropKeeps(t: seq<Sock>, held: set<int>, c: int, child: Sock)
    requires Good(t, held) && c in held && SockGood(child) && !child.pending && child.state != Listening
    ensures Good(t[c := child], held - {c})
  {
    var t' := t[c := child];
    forall x | 0 <= x < MAX_SOCKETS ensures ChildGood(t', held - {c}, x) { assert ChildGood(t, held, x); }
    forall q | 0 <= q < MAX_SOCKETS ensures BacklogGood(t', held - {c}, q) {
      assert BacklogGood(t, held, q);
      forall x | x in Queue(t'[q])
        ensures EntryGood(t', held - {c}, q, x)
      {
        assert q != c && EntryGood(t, held, q, x);
      }
    }
  }
}
