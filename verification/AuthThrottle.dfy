/** The authorization throttle of admin_server.c: per-peer failure counts, windows and blocks. */
module AuthThrottle {

  const BUCKETS := 8
  const WINDOW := 300
  const THRESHOLD := 3
  const BASE := 100
  const MAX_SHIFT := 3

  datatype Bucket = Bucket(inUse: bool, peer: int, windowStart: int, lastSeen: int, failures: int, blockedUntil: int)

  datatype Verdict = Allow | Deny | Throttled

  function Unused(): Bucket { Bucket(false, 0, 0, 0, 0, 0) }

  /** The earliest tick at which another failure can be recorded. */
  ghost function Until(b: Bucket, now: int): int { if b.blockedUntil != 0 then b.blockedUntil else now }

  /** How far past the start of the window a bucket with this many failures has been pushed. */
  ghost function Pushed(failures: int): int
  {
    if failures <= THRESHOLD then 0 else if failures == 4 then 100 else if failures == 5 then 300 else 700
  }

  /** The bound on failures, and the reason for it: each block pushes the next failure further through the window. */
  ghost predicate BucketGood(b: Bucket, now: int)
  {
    && 0 <= b.failures <= 6 && 0 <= b.windowStart <= now && b.lastSeen <= now && 0 <= b.blockedUntil <= now + 400
    && Until(b, now) >= b.windowStart + Pushed(b.failures)
  }

  ghost predicate OnePerPeer(bs: seq<Bucket>)
  {
    forall i, j :: 0 <= i < |bs| && 0 <= j < |bs| && bs[i].inUse && bs[j].inUse && bs[i].peer == bs[j].peer ==> i == j
  }

  ghost predicate Good(bs: seq<Bucket>, now: int)
  {
    |bs| == BUCKETS && now >= 0 && OnePerPeer(bs) && forall i :: 0 <= i < BUCKETS ==> BucketGood(bs[i], now)
  }

  /** The peer has a bucket that is blocked until that tick. */
  ghost predicate Held(bs: seq<Bucket>, peer: int, until: int)
  {
    exists i :: 0 <= i < |bs| && bs[i].inUse && bs[i].peer == peer && bs[i].blockedUntil == until
  }

  /** The peer has a bucket whose block has not run out. */
  ghost predicate Blocked(bs: seq<Bucket>, now: int, peer: int)
  {
    exists i :: 0 <= i < |bs| && bs[i].inUse && bs[i].peer == peer && bs[i].blockedUntil > now
  }

  ghost predicate Known(bs: seq<Bucket>, peer: int)
  {
    exists i :: 0 <= i < |bs| && bs[i].inUse && bs[i].peer == peer
  }

  /** admin_refresh_auth_bucket on a bucket in use. */
  function Refreshed(b: Bucket, now: int): Bucket
  {
    var c := if now - b.windowStart > WINDOW then b.(windowStart := now, failures := 0) else b;
    var d := if c.blockedUntil != 0 && c.blockedUntil <= now then c.(blockedUntil := 0) else c;
    d.(lastSeen := now)
  }

  lemma RefreshedGood(b: Bucket, now: int)
    requires BucketGood(b, now)
    ensures BucketGood(Refreshed(b, now), now) && Refreshed(b, now).peer == b.peer && Refreshed(b, now).inUse == b.inUse
    ensures (Refreshed(b, now).blockedUntil != 0) == (b.blockedUntil > now)
    ensures now - Refreshed(b, now).windowStart <= WINDOW
  {}

  /** The formula of admin_auth_backoff_ticks. */
  ghost function BackoffTicks(failures: int): int
  {
    if failures <= 3 then 0
    else if failures == 4 then 100
    else if failures == 5 then 200
    else if failures == 6 then 400
    else 800
  }

  /** admin_auth_backoff_ticks: doubling, at most three times. */
  method Backoff(failures: int) returns (ticks: int)
    ensures ticks == BackoffTicks(failures)
  {
    ticks := BASE;
    var extra, shift := failures - THRESHOLD - 1, 0;
    if failures <= THRESHOLD { return 0; }
    while extra > 0 && shift < MAX_SHIFT
      invariant 0 <= extra && 0 <= shift <= MAX_SHIFT && extra + shift == failures - THRESHOLD - 1
      invariant ticks == if shift == 0 then 100 else if shift == 1 then 200 else if shift == 2 then 400 else 800
      decreases extra
    {
      ticks := ticks * 2;
      extra := extra - 1;
      shift := shift + 1;
    }
  }

  /** A failure recorded on a bucket that is not blocked. The sixth can only come in the window's last tick, so there
      is no seventh. */
  lemma FailureBounded(b: Bucket, now: int)
    requires BucketGood(b, now) && b.blockedUntil == 0 && now - b.windowStart <= WINDOW
    ensures var n := b.failures + 1; var ticks := BackoffTicks(n);
      n <= 6 && ticks <= 400 && BucketGood(b.(failures := n, blockedUntil := if ticks > 0 then now + ticks else 0), now)
  {}

  /** A bucket after a failure at tick now. */
  ghost function Failed(b: Bucket, now: int): Bucket
  {
    var r := Refreshed(b, now);
    var ticks := BackoffTicks(r.failures + 1);
    r.(failures := r.failures + 1, blockedUntil := if ticks > 0 then now + ticks else r.blockedUntil)
  }

  /** The bounds are met: four failures at once, one when that block ends, one in the last tick of the window. */
  lemma SixIsReached(peer: int)
    ensures var b3 := Failed(Failed(Failed(Bucket(true, peer, 0, 0, 0, 0), 0), 0), 0);
      var b4 := Failed(b3, 0); var b5 := Failed(b4, 100); var b6 := Failed(b5, 300);
      b3.blockedUntil == 0 && Refreshed(b4, 100).blockedUntil == 0 && Refreshed(b5, 300).blockedUntil == 0 &&
      b6.failures == 6 && b6.blockedUntil == 300 + 400
  {
    var b1 := Failed(Bucket(true, peer, 0, 0, 0, 0), 0);
    assert b1 == Bucket(true, peer, 0, 0, 1, 0);
    var b3 := Failed(Failed(b1, 0), 0);
    assert b3 == Bucket(true, peer, 0, 0, 3, 0);
    var b5 := Failed(Failed(b3, 0), 100);
    assert b5 == Bucket(true, peer, 0, 100, 5, 300);
  }

  class Throttle {
    var buckets: seq<Bucket>
    var now: int             // kernel_tick

    ghost predicate Valid()
      reads this
    {
      Good(buckets, now)
    }

    constructor (tick: nat)
      ensures Valid() && now == tick && forall peer :: !Known(buckets, peer)
    {
      buckets := seq(BUCKETS, i => Unused());
      now := tick;
    }

    /** Time passes. */
    method Advance(ticks: nat)
      requires Valid()
      modifies this
      ensures Valid() && buckets == old(buckets) && now == old(now) + ticks
    {
      now := now + ticks;
    }

    /** admin_find_auth_bucket: the peer's bucket, or else the place for a new one. */
    method Find(peer: int, create: bool) returns (i: int)
      requires Valid()
      modifies `buckets
      ensures Valid() && (i == -1 || 0 <= i < BUCKETS)
      ensures old(Known(buckets, peer)) ==>
        i != -1 && buckets == old(buckets) && buckets[i].inUse && buckets[i].peer == peer
      ensures !old(Known(buckets, peer)) && !create ==> i == -1 && buckets == old(buckets)
      ensures !old(Known(buckets, peer)) && create ==>
        i != -1 && buckets == old(buckets)[i := Bucket(true, peer, now, now, 0, 0)]
      ensures !old(Known(buckets, peer)) && create ==> Victim(old(buckets), i)
    {
      var free, oldest := -1, -1;
      i := 0;
      while i < BUCKETS
        invariant 0 <= i <= BUCKETS && -1 <= free < i && -1 <= oldest < i
        invariant forall k :: 0 <= k < i ==> !(buckets[k].inUse && buckets[k].peer == peer)
        invariant free == -1 ==> forall k :: 0 <= k < i ==> buckets[k].inUse
        invariant free != -1 ==> !buckets[free].inUse && forall k :: 0 <= k < free ==> buckets[k].inUse
        invariant oldest == -1 ==> forall k :: 0 <= k < i ==> !buckets[k].inUse
        invariant oldest != -1 ==> buckets[oldest].inUse && forall k :: 0 <= k < i && buckets[k].inUse ==>
          buckets[oldest].lastSeen <= buckets[k].lastSeen
        invariant forall k :: 0 <= k < oldest && buckets[k].inUse ==> buckets[oldest].lastSeen < buckets[k].lastSeen
      {
        if buckets[i].inUse {
          if buckets[i].peer == peer { return; }
          if oldest < 0 || buckets[i].lastSeen < buckets[oldest].lastSeen { oldest := i; }
        } else if free < 0 {
          free := i;
        }
        i := i + 1;
      }
      if !create { return -1; }
      assert free >= 0 || buckets[0].inUse;
      i := if free >= 0 then free else oldest;
      buckets := buckets[i := Bucket(true, peer, now, now, 0, 0)];
    }

    /** admin_is_peer_throttled */
    method IsThrottled(peer: int) returns (yes: bool)
      requires Valid()
      modifies `buckets
      ensures Valid() && yes == old(Blocked(buckets, now, peer)) &&
        (Known(buckets, peer) <==> old(Known(buckets, peer)))
      ensures yes ==> Blocked(buckets, now, peer)
      ensures forall until :: until > now && old(Held(buckets, peer, until)) ==> Held(buckets, peer, until)
      ensures !yes ==> forall i :: 0 <= i < BUCKETS && buckets[i].inUse && buckets[i].peer == peer ==>
        buckets[i].blockedUntil == 0
      ensures OthersSame(old(buckets), buckets, peer)
      ensures forall i :: 0 <= i < BUCKETS && buckets[i].inUse && buckets[i].peer == peer ==>
        old(buckets)[i].inUse && old(buckets)[i].peer == peer
    {
      var i := Find(peer, false);
      if i < 0 { return false; }
      RefreshedGood(buckets[i], now);
      buckets := buckets[i := Refreshed(buckets[i], now)];
      assert buckets[i].inUse && buckets[i].peer == peer;
      yes := buckets[i].blockedUntil != 0;
      assert forall until :: until > now && old(Held(buckets, peer, until)) ==> buckets[i].blockedUntil == until;
    }

    /** admin_record_auth_failure, for a peer that is not blocked. */
    method RecordFailure(peer: int) returns (v: Verdict, retryAfter: int)
      requires Valid() && !Blocked(buckets, now, peer)
      modifies `buckets
      ensures Valid() && (v == Deny || v == Throttled) && 0 <= retryAfter <= 400 && (v == Throttled <==> retryAfter > 0)
      ensures v == Throttled <==> Blocked(buckets, now, peer)
      ensures exists i :: FailedAt(old(buckets), buckets, i, peer, now)
      ensures forall i :: 0 <= i < BUCKETS && buckets[i].inUse && buckets[i].peer != peer ==>
        buckets[i] == old(buckets)[i]
    {
      var i := Find(peer, true);
      RefreshedGood(buckets[i], now);
      var b := Refreshed(buckets[i], now);
      FailureBounded(b, now);
      retryAfter := Backoff(b.failures + 1);
      b := b.(failures := b.failures + 1);
      if retryAfter > 0 { b := b.(blockedUntil := now + retryAfter); }
      buckets := buckets[i := b];
      v := if retryAfter > 0 then Throttled else Deny;
      assert buckets[i].inUse && buckets[i].peer == peer && FailedAt(old(buckets), buckets, i, peer, now);
    }

    /** admin_record_auth_success */
    method RecordSuccess(peer: int)
      requires Valid()
      modifies `buckets
      ensures Valid() && !Blocked(buckets, now, peer)
      ensures OthersSame(old(buckets), buckets, peer)
      ensures forall i :: 0 <= i < BUCKETS && buckets[i].inUse && buckets[i].peer == peer ==>
        old(buckets)[i].inUse && old(buckets)[i].peer == peer
    {
      var i := Find(peer, false);
      if i < 0 { return; }
      buckets := buckets[i := buckets[i].(failures := 0, blockedUntil := 0, windowStart := now, lastSeen := now)];
    }

    /** admin_authorize_peer; allowed is the allow-list's answer. */
    method AuthorizePeer(peer: int, allowed: bool) returns (v: Verdict)
      requires Valid()
      modifies `buckets
      ensures Valid()
      ensures old(Blocked(buckets, now, peer)) ==> v == Throttled && Blocked(buckets, now, peer)
      ensures !old(Blocked(buckets, now, peer)) ==> (v == Allow <==> allowed)
      ensures Stepped(Snap(old(buckets), now), Peer(peer, allowed), Snap(buckets, now))
    {
      ghost var s, ev := Snap(buckets, now), Peer(peer, allowed);
      var throttled := IsThrottled(peer);
      QuietStep(s, ev, Snap(buckets, now), peer);
      if throttled { return Throttled; }
      NotBlocked(buckets, now, peer);
      if !allowed {
        v := Fail(peer, s, ev);
        return;
      }
      v := Allow;
    }

    /** The failure that ends an event. */
    method Fail(peer: int, ghost s: Snap, ghost ev: Event) returns (v: Verdict)
      requires Valid() && !Blocked(buckets, now, peer) && s.now == now && Good(s.bs, now) && Fails(s, ev)
      requires ev.peer == peer && OthersSame(s.bs, buckets, peer) && (Known(buckets, peer) <==> Known(s.bs, peer))
      requires !Blocked(s.bs, now, peer)
      requires forall k :: 0 <= k < BUCKETS && buckets[k].inUse && buckets[k].peer == peer ==>
        s.bs[k].inUse && s.bs[k].peer == peer
      modifies `buckets
      ensures Valid() && (v == Deny || v == Throttled) && Stepped(s, ev, Snap(buckets, now))
    {
      ghost var bs1 := buckets;
      var retryAfter;
      v, retryAfter := RecordFailure(peer);
      ghost var i :| FailedAt(bs1, buckets, i, peer, now);
      FailedStep(s, ev, bs1, i, Snap(buckets, now));
    }

    /** admin_authorize_request_detailed; health says the request needs no token, trusted that its token grants the
        role it needs. */
    method AuthorizeRequest(peer: int, present: bool, allowed: bool, health: bool, trusted: bool) returns (v: Verdict)
      requires Valid()
      modifies `buckets
      ensures Valid()
      ensures !present ==> v == Deny && buckets == old(buckets)
      ensures present && old(Blocked(buckets, now, peer)) ==> v == Throttled && Blocked(buckets, now, peer)
      ensures present && !old(Blocked(buckets, now, peer)) ==> (v == Allow <==> allowed && (health || trusted))
      ensures Stepped(Snap(old(buckets), now), Request(peer, present, allowed, health, trusted), Snap(buckets, now))
    {
      ghost var s, ev := Snap(buckets, now), Request(peer, present, allowed, health, trusted);
      if !present { return Deny; }
      var throttled := IsThrottled(peer);
      QuietStep(s, ev, Snap(buckets, now), peer);
      if throttled { return Throttled; }
      NotBlocked(buckets, now, peer);
      if !allowed {
        v := Fail(peer, s, ev);
        return;
      }
      if health || trusted {
        ghost var bs1 := buckets;
        RecordSuccess(peer);
        QuietTwice(s, ev, bs1, Snap(buckets, now), peer);
        return Allow;
      }
      v := Fail(peer, s, ev);
    }
  }

  // ---- how long a block lasts ----

  datatype Snap = Snap(bs: seq<Bucket>, now: int)

  /** The event counts as a failure. */
  ghost predicate Fails(s: Snap, ev: Event)
  {
    match ev
    case Ticks(n) => false
    case Peer(peer, allowed) => !allowed && !Blocked(s.bs, s.now, peer)
    case Request(peer, present, allowed, health, trusted) =>
      present && !Blocked(s.bs, s.now, peer) && !(allowed && (health || trusted))
  }

  /** It is the failure of a peer that has no bucket, and the bucket of q makes way for it. */
  ghost predicate Evicts(s: Snap, ev: Event, q: int)
    requires |s.bs| == BUCKETS
  {
    Fails(s, ev) && !Known(s.bs, ev.peer) && exists i :: Victim(s.bs, i) && s.bs[i].inUse && s.bs[i].peer == q
  }

  /** Of the blocks that have not run out, an event ends exactly those whose bucket it takes. */
  ghost predicate Stepped(s: Snap, ev: Event, s': Snap)
  {
    && |s.bs| == |s'.bs| == BUCKETS && s.now <= s'.now
    && forall q, until {:trigger Held(s.bs, q, until)} :: until > s'.now && Held(s.bs, q, until) ==>
         (Held(s'.bs, q, until) <==> !Evicts(s, ev, q))
  }

  lemma OneVictim(bs: seq<Bucket>, i: int, j: int)
    requires |bs| == BUCKETS && Victim(bs, i) && Victim(bs, j)
    ensures i == j
  {}

  /** Buckets of other peers are as they were. */
  ghost predicate OthersSame(bs: seq<Bucket>, bs': seq<Bucket>, peer: int)
  {
    |bs| == |bs'| && forall i :: 0 <= i < |bs| && !(bs'[i].inUse && bs'[i].peer == peer) ==> bs'[i] == bs[i]
  }

  lemma OthersHeld(bs: seq<Bucket>, bs': seq<Bucket>, peer: int, q: int, until: int)
    requires OthersSame(bs, bs', peer) && q != peer && Held(bs, q, until)
    requires forall i :: 0 <= i < |bs| && bs[i].inUse && bs[i].peer == q ==> !(bs'[i].inUse && bs'[i].peer == peer)
    ensures Held(bs', q, until)
  {
    var i :| 0 <= i < |bs| && bs[i].inUse && bs[i].peer == q && bs[i].blockedUntil == until;
    assert bs'[i] == bs[i];
  }

  lemma FailureKeeps(bs: seq<Bucket>, bs': seq<Bucket>, i: int, peer: int, now: int, q: int, until: int)
    requires Good(bs, now) && FailedAt(bs, bs', i, peer, now) && q != peer && Held(bs, q, until)
    ensures Held(bs', q, until) <==> !(!Known(bs, peer) && Victim(bs, i) && bs[i].inUse && bs[i].peer == q)
  {
    var k :| 0 <= k < |bs| && bs[k].inUse && bs[k].peer == q && bs[k].blockedUntil == until;
    if k != i { assert bs'[k] == bs[k]; }
  }

  /** Only the peer's own bucket has changed, and if it is blocked it still is. */
  lemma QuietStep(s: Snap, ev: Event, s': Snap, peer: int)
    requires |s.bs| == BUCKETS && s'.now == s.now && OthersSame(s.bs, s'.bs, peer)
    requires forall k :: 0 <= k < BUCKETS && s'.bs[k].inUse && s'.bs[k].peer == peer ==>
      s.bs[k].inUse && s.bs[k].peer == peer
    requires forall until :: until > s.now && Held(s.bs, peer, until) ==> Held(s'.bs, peer, until)
    ensures !Fails(s, ev) ==> Stepped(s, ev, s')
  {
    forall q, until {:trigger Held(s.bs, q, until)} | until > s'.now && Held(s.bs, q, until)
      ensures Held(s'.bs, q, until)
    {
      if q != peer { OthersHeld(s.bs, s'.bs, peer, q, until); }
    }
  }

  lemma QuietTwice(s: Snap, ev: Event, bs1: seq<Bucket>, s': Snap, peer: int)
    requires |s.bs| == BUCKETS && s'.now == s.now && OthersSame(s.bs, bs1, peer) && OthersSame(bs1, s'.bs, peer)
    requires forall k :: 0 <= k < BUCKETS && bs1[k].inUse && bs1[k].peer == peer ==>
      s.bs[k].inUse && s.bs[k].peer == peer
    requires forall k :: 0 <= k < BUCKETS && s'.bs[k].inUse && s'.bs[k].peer == peer ==>
      bs1[k].inUse && bs1[k].peer == peer
    requires !Fails(s, ev) && !Blocked(s.bs, s.now, peer)
    ensures Stepped(s, ev, s')
  {
    assert forall until :: until > s.now ==> !Held(s.bs, peer, until);
    QuietStep(s, ev, s', peer);
  }

  /** An event that counts as a failure, after the peer's own bucket was refreshed to bs1. */
  lemma FailedStep(s: Snap, ev: Event, bs1: seq<Bucket>, i: int, s': Snap)
    requires Good(s.bs, s.now) && Good(bs1, s.now) && s'.now == s.now && Fails(s, ev) && OthersSame(s.bs, bs1, ev.peer)
    requires (Known(bs1, ev.peer) <==> Known(s.bs, ev.peer)) && !Blocked(s.bs, s.now, ev.peer)
    requires forall k :: 0 <= k < BUCKETS && bs1[k].inUse && bs1[k].peer == ev.peer ==>
      s.bs[k].inUse && s.bs[k].peer == ev.peer
    requires FailedAt(bs1, s'.bs, i, ev.peer, s.now)
    ensures Stepped(s, ev, s')
  {
    forall q, until {:trigger Held(s.bs, q, until)} | until > s'.now && Held(s.bs, q, until)
      ensures Held(s'.bs, q, until) <==> !Evicts(s, ev, q)
    {
      assert q != ev.peer;
      OthersHeld(s.bs, bs1, ev.peer, q, until);
      FailureKeeps(bs1, s'.bs, i, ev.peer, s.now, q, until);
      if !Known(s.bs, ev.peer) {
        assert bs1 == s.bs;
        forall j | Victim(s.bs, j) ensures j == i { OneVictim(s.bs, i, j); }
      }
    }
  }

  // ---- any run ----

  datatype Event =
    | Ticks(n: nat)
    | Peer(peer: int, allowed: bool)
    | Request(peer: int, present: bool, allowed: bool, health: bool, trusted: bool)

  /** The failure counts, blocks and buckets that can ever be seen. */
  ghost predicate Bounded(bs: seq<Bucket>, now: int)
  {
    && OnePerPeer(bs) && forall i :: 0 <= i < |bs| ==> bs[i].failures <= 6 && bs[i].blockedUntil <= now + 400
  }

  /** Over any run of authorizations and ticks the bounds hold, no verdict is Allow for a peer blocked when it asked,
      and each event ends just the blocks whose buckets it takes. */
  method Run(t: Throttle, events: seq<Event>)
    returns (verdicts: seq<Verdict>, ghost blocked: seq<bool>, ghost trace: seq<Snap>)
    requires t.Valid()
    modifies t
    ensures t.Valid() && Bounded(t.buckets, t.now) && |verdicts| == |blocked|
    ensures forall k :: 0 <= k < |verdicts| ==> !(blocked[k] && verdicts[k] == Allow)
    ensures Traced(trace, events) && trace[0] == old(Snap(t.buckets, t.now))
    ensures trace[|events|] == Snap(t.buckets, t.now)
  {
    verdicts, blocked, trace := [], [], [Snap(t.buckets, t.now)];
    var k := 0;
    while k < |events|
      invariant 0 <= k <= |events| && t.Valid() && |verdicts| == |blocked|
      invariant forall j :: 0 <= j < |verdicts| ==> !(blocked[j] && verdicts[j] == Allow)
      invariant Traced(trace, events[..k]) && trace[0] == old(Snap(t.buckets, t.now))
      invariant trace[k] == Snap(t.buckets, t.now)
    {
      ghost var s := Snap(t.buckets, t.now);
      match events[k] {
        case Ticks(n) => t.Advance(n);
        case Peer(peer, allowed) =>
          blocked := blocked + [Blocked(t.buckets, t.now, peer)];
          var v := t.AuthorizePeer(peer, allowed);
          verdicts := verdicts + [v];
        case Request(peer, present, allowed, health, trusted) =>
          blocked := blocked + [Blocked(t.buckets, t.now, peer)];
          var v := t.AuthorizeRequest(peer, present, allowed, health, trusted);
          verdicts := verdicts + [v];
      }
      TracedOn(trace, events, k, Snap(t.buckets, t.now));
      trace := trace + [Snap(t.buckets, t.now)];
      k := k + 1;
    }
    assert events[..|events|] == events;
  }

  ghost predicate Traced(trace: seq<Snap>, events: seq<Event>)
  {
    |trace| == |events| + 1 && forall k :: 0 <= k < |events| ==> Stepped(trace[k], events[k], trace[k + 1])
  }

  lemma TracedOn(trace: seq<Snap>, events: seq<Event>, k: nat, s: Snap)
    requires k < |events| && Traced(trace, events[..k]) && Stepped(trace[k], events[k], s)
    ensures Traced(trace + [s], events[..k + 1])
  {
    var t, e := trace + [s], events[..k + 1];
    forall j | 0 <= j < |e| ensures Stepped(t[j], e[j], t[j + 1]) {
      if j < k { assert Stepped(trace[j], events[..k][j], trace[j + 1]); }
    }
  }

  lemma {:induction false} TimeGoesOn(trace: seq<Snap>, events: seq<Event>, k: nat, n: nat)
    requires Traced(trace, events) && k <= n <= |events|
    ensures trace[k].now <= trace[n].now
    decreases n
  {
    if k < n {
      TimeGoesOn(trace, events, k, n - 1);
      assert Stepped(trace[n - 1], events[n - 1], trace[n - 1 + 1]);
    }
  }

  /** A block that has not run out by the end of a run has lasted all through it exactly if no event took its bucket. */
  lemma {:induction false} BlockLastsIff(trace: seq<Snap>, events: seq<Event>, n: nat, q: int, until: int)
    requires Traced(trace, events) && n <= |events| && Held(trace[0].bs, q, until) && until > trace[n].now
    requires forall k :: 0 <= k < n ==> |trace[k].bs| == BUCKETS
    ensures (forall k :: 0 <= k <= n ==> Held(trace[k].bs, q, until)) <==>
      (forall k :: 0 <= k < n ==> !Evicts(trace[k], events[k], q))
    decreases n
  {
    if n > 0 {
      var m := n - 1;
      TimeGoesOn(trace, events, m, n);
      BlockLastsIff(trace, events, m, q, until);
      assert Stepped(trace[m], events[m], trace[m + 1]);
    }
  }

  /** A full table, in which the bucket not seen for longest is blocked: a stranger's failure takes it. */
  lemma StrangerEvicts()
    ensures var s := Snap(seq(BUCKETS, i => Bucket(true, i, 0, i, 4, 500)), 100);
      Blocked(s.bs, s.now, 0) && Evicts(s, Peer(BUCKETS, false), 0)
  {
    var bs := seq(BUCKETS, i => Bucket(true, i, 0, i, 4, 500));
    assert bs[0].inUse && bs[0].peer == 0 && bs[0].blockedUntil == 500;
    assert Victim(bs, 0);
  }

  /** The peer's bucket i, new or not, has had a failure. */
  ghost predicate FailedAt(bs: seq<Bucket>, bs': seq<Bucket>, i: int, peer: int, now: int)
  {
    && 0 <= i < |bs| == |bs'| == BUCKETS && bs'[i].inUse && bs'[i].peer == peer && bs' == bs[i := bs'[i]]
    && (if Known(bs, peer) then bs[i].inUse && bs[i].peer == peer else Victim(bs, i))
    && bs'[i] == Failed(if Known(bs, peer) then bs[i] else Bucket(true, peer, now, now, 0, 0), now)
  }

  /** Where a new bucket goes: the first free place, or else the first of those not seen for longest. */
  ghost predicate Victim(bs: seq<Bucket>, i: int)
    requires |bs| == BUCKETS
  {
    && 0 <= i < BUCKETS
    && if bs[i].inUse then
         && (forall k :: 0 <= k < BUCKETS ==> bs[k].inUse && bs[i].lastSeen <= bs[k].lastSeen)
         && (forall k :: 0 <= k < i ==> bs[i].lastSeen < bs[k].lastSeen)
       else forall k :: 0 <= k < i ==> bs[k].inUse
  }

  lemma NotBlocked(bs: seq<Bucket>, now: int, peer: int)
    requires |bs| == BUCKETS && now >= 0 && forall i :: 0 <= i < BUCKETS && bs[i].inUse && bs[i].peer == peer ==>
      bs[i].blockedUntil == 0
    ensures !Blocked(bs, now, peer)
  {}
}
