/** The receive buffer of an SSH connection (ssh_packet_core.c and the append and decode loop of ssh_server.c):
    the binary packets of section 6 of RFC 4253, before encryption begins. */
module SshPackets {
  import opened Digits
  import opened SshFields

  // ---- packets ----

  datatype Packet = Packet(payload: Bytes, pad: Bytes)

  /** At least four bytes of padding, counted in one byte, and a whole packet within the limit. */
  ghost predicate Fine(p: Packet, max: nat)
  {
    4 <= |p.pad| < 256 && 5 + |p.payload| + |p.pad| <= max < SIGN
  }

  ghost function Body(p: Packet): Bytes
    requires |p.pad| < 256
  {
    [|p.pad|] + p.payload + p.pad
  }

  /** A packet on the wire: its length, the length of its padding, the payload and the padding. */
  ghost function Wire(p: Packet): (w: Bytes)
    requires |p.pad| < 256
    ensures |w| == 5 + |p.payload| + |p.pad|
  {
    U32(|Body(p)|) + Body(p)
  }

  ghost predicate AllFine(ps: seq<Packet>, max: nat)
  {
    forall i :: 0 <= i < |ps| ==> Fine(ps[i], max)
  }

  ghost function Stream(ps: seq<Packet>, max: nat): Bytes
    requires AllFine(ps, max)
  {
    if ps == [] then [] else Wire(ps[0]) + Stream(ps[1..], max)
  }

  ghost function Payloads(ps: seq<Packet>): seq<Bytes>
  {
    seq(|ps|, i requires 0 <= i < |ps| => ps[i].payload)
  }

  // ---- what the front of a buffer holds ----

  ghost predicate Starts(b: Bytes, p: Packet, max: nat)
  {
    Fine(p, max) && Wire(p) <= b
  }

  /** The buffer does not hold what its first four bytes announce, or they announce less than five bytes. */
  ghost predicate Hungry(b: Bytes)
  {
    |b| < 4 || ReadU32(b) < 5 || |b| - 4 < ReadU32(b) < SIGN - 4
  }

  /** The lengths at which the decoder's 32-bit sums wrap and pass for those of a packet. */
  ghost predicate Wraps(n: u32, padding: byte)
  {
    4 <= padding && SIGN - 4 <= n <= SIGN + padding
  }

  /** The buffer starts with such a length; next is the byte that follows the length in the array. */
  ghost predicate Wrapped(b: Bytes, next: byte)
  {
    |b| >= 4 && Wraps(ReadU32(b), next)
  }

  /** What the decoder takes for the size of the whole packet and of the payload. */
  function TotalOf(n: u32): int { Signed((n + 4) % WORD) }

  function CopyOf(n: u32, padding: byte): int { Signed((n - padding - 1) % WORD) }

  /** The tests of the decoder let exactly two kinds of length through: that of a packet that is there, and one that
      wraps. */
  lemma PassesExactly(n: u32, padding: byte, have: int, max: int)
    requires 4 <= have < SIGN && 0 <= max < SIGN
    ensures n >= 5 && TotalOf(n) <= have && TotalOf(n) <= max && padding >= 4 && CopyOf(n, padding) >= 0 <==>
      4 <= padding && (Wraps(n, padding) || (padding < n && n + 4 <= have && n + 4 <= max))
    ensures n < SIGN - 4 ==> TotalOf(n) == n + 4 && (padding < n ==> CopyOf(n, padding) == n - padding - 1)
    ensures n >= SIGN - 4 ==> TotalOf(n) < 4
    ensures Wraps(n, padding) ==> CopyOf(n, padding) >= SIGN - 0x104
  {}

  /** Lengths that wrap, the first from below 2^31 and the second from above. */
  lemma SomeWrap()
    ensures Wrapped([0x7f, 0xff, 0xff, 0xfc, 4], 4) && Wrapped([0x80, 0, 0, 4, 4], 4)
    ensures !Hungry([0x7f, 0xff, 0xff, 0xfc, 4]) && CopyOf(0x7fff_fffc, 4) == 0x7fff_fff7
  {
    FourBytes(0x7f, 0xff, 0xff, 0xfc, [4]);
    FourBytes(0x80, 0, 0, 4, [4]);
    assert [0x7f, 0xff, 0xff, 0xfc] + [4] == [0x7f, 0xff, 0xff, 0xfc, 4] && [0x80, 0, 0, 4] + [4] == [0x80, 0, 0, 4, 4];
  }

  // ---- what is waited for ----

  /** Nothing that may still arrive ends the wait. */
  ghost predicate Stuck(b: Bytes)
  {
    forall more: Bytes :: Hungry(b + more)
  }

  /** Exactly a length below five is waited on for ever; any other wait can be ended. */
  lemma StuckExactly(b: Bytes)
    ensures Stuck(b) <==> |b| >= 4 && ReadU32(b) < 5
  {
    if |b| >= 4 && ReadU32(b) < 5 {
      forall more: Bytes ensures Hungry(b + more) { assert (b + more)[..4] == b[..4]; }
    } else {
      var more := Ending(b);
      assert !Hungry(b + more);
    }
  }

  lemma Ending(b: Bytes) returns (more: Bytes)
    requires |b| < 4 || ReadU32(b) >= 5
    ensures !Hungry(b + more)
  {
    var head: Bytes := if |b| < 4 then seq(3 - |b|, i => 0) + [5] else [];
    var c := b + head;
    assert |b| < 4 ==> c[..4] == c && c[3] == 5;
    assert |b| >= 4 ==> c == b;
    var rest: Bytes := seq(ReadU32(c), i => 0);
    more := head + rest;
    assert b + more == c + rest && (c + rest)[..4] == c[..4];
  }

  lemma ZeroLengthIsStuck()
    ensures Stuck([0, 0, 0, 0])
  {
    FourBytes(0, 0, 0, 0, []);
    assert [0, 0, 0, 0] + [] == [0, 0, 0, 0];
    StuckExactly([0, 0, 0, 0]);
  }

  lemma WireLength(b: Bytes, p: Packet, max: nat)
    requires Fine(p, max) && |b| >= 4 && (b <= Wire(p) || Wire(p) <= b)
    ensures ReadU32(b) == |Wire(p)| - 4 >= 5
  {
    U32RoundTrip(|Body(p)|, Body(p));
    assert b[..4] == Wire(p)[..4];
  }

  /** A buffer that holds a packet is not hungry, and one that holds part of a packet is. */
  lemma PartIsHungry(b: Bytes, p: Packet, max: nat)
    requires Fine(p, max) && (b <= Wire(p) || Wire(p) <= b)
    ensures Hungry(b) <==> |b| < |Wire(p)|
  {
    if |b| >= 4 { WireLength(b, p, max); }
  }

  /** At most one packet starts a buffer. */
  lemma OneStarts(b: Bytes, p: Packet, q: Packet, max: nat)
    requires Starts(b, p, max) && Starts(b, q, max)
    ensures p == q
  {
    WireLength(b, p, max);
    WireLength(b, q, max);
    var w := b[..|Wire(p)|];
    assert w == Wire(p) == Wire(q);
    assert w[4..] == Body(p) == Body(q);
    assert Body(p)[0] == |p.pad| && Body(q)[0] == |q.pad|;
    assert Body(p)[1..1 + |p.payload|] == p.payload && Body(q)[1..1 + |q.payload|] == q.payload;
    assert Body(p)[1 + |p.payload|..] == p.pad && Body(q)[1 + |q.payload|..] == q.pad;
  }

  // ---- a stream is split in one way ----

  lemma Regroup<T>(a: seq<T>, b: seq<T>, c: seq<T>)
    ensures (a + b) + c == a + (b + c)
  {}

  lemma CutFront<T>(w: seq<T>, x: seq<T>, y: seq<T>)
    requires w + x <= w + y
    ensures x <= y
  {
    assert (w + x)[|w|..] == x && (w + y)[|w|..] == y;
  }

  lemma FrontOf<T>(w: seq<T>, x: seq<T>, s: seq<T>)
    requires w + x <= s
    ensures w <= s
  {
    assert (w + x)[..|w|] == w;
  }

  lemma {:induction false} StreamSnoc(ps: seq<Packet>, p: Packet, max: nat)
    requires AllFine(ps, max) && Fine(p, max)
    ensures AllFine(ps + [p], max) && Stream(ps + [p], max) == Stream(ps, max) + Wire(p)
  {
    var all := ps + [p];
    if ps == [] {
      assert all[1..] == [];
    } else {
      var rest := ps[1..];
      assert all[1..] == rest + [p];
      StreamSnoc(rest, p, max);
      Regroup(Wire(ps[0]), Stream(rest, max), Wire(p));
    }
  }

  /** Packets cut off a stream of packets are the first packets of the stream. */
  lemma {:induction false} SplitIsUnique(ps: seq<Packet>, tail: Bytes, sent: seq<Packet>, max: nat)
    requires AllFine(ps, max) && AllFine(sent, max) && Stream(ps, max) + tail <= Stream(sent, max)
    ensures ps <= sent && tail <= Stream(sent[|ps|..], max)
  {
    if ps == [] {
      assert Stream(ps, max) + tail == tail && sent[0..] == sent;
    } else {
      var w, mine := Wire(ps[0]), Stream(ps[1..], max);
      Regroup(w, mine, tail);
      FrontOf(w, mine + tail, Stream(sent, max));
      assert sent != [];
      SameFirst(ps[0], sent[0], Stream(sent[1..], max), max);
      CutFront(w, mine + tail, Stream(sent[1..], max));
      SplitIsUnique(ps[1..], tail, sent[1..], max);
      assert sent[1..][|ps| - 1..] == sent[|ps|..];
    }
  }

  lemma SameFirst(p: Packet, q: Packet, rest: Bytes, max: nat)
    requires Fine(p, max) && Fine(q, max) && Wire(p) <= Wire(q) + rest
    ensures p == q
  {
    OneStarts(Wire(q) + rest, p, q, max);
  }

  /** What is left of a stream of packets is never refused. */
  lemma LeftIsGood(tail: Bytes, sent: seq<Packet>, max: nat)
    requires AllFine(sent, max) && tail <= Stream(sent, max)
    ensures if sent != [] && |Wire(sent[0])| <= |tail| then Starts(tail, sent[0], max) else Hungry(tail)
  {
    if sent != [] {
      var w := Wire(sent[0]);
      if |w| <= |tail| {
        assert Stream(sent, max)[..|w|] == w;
      } else {
        assert tail == Stream(sent, max)[..|tail|] == w[..|tail|];
        PartIsHungry(tail, sent[0], max);
      }
    }
  }

  // ---- ssh_move_bytes ----

  ghost function Moved(s: Bytes, dest: nat, src: nat, len: nat): Bytes
    requires dest + len <= |s| && src + len <= |s|
  {
    s[..dest] + s[src..src + len] + s[dest + len..]
  }

  /** The bytes from lo up to hi come from gap further on, and the others stay. */
  ghost predicate Shifted(now: Bytes, was: Bytes, lo: nat, hi: nat, gap: int)
  {
    && |now| == |was| && lo <= hi <= |was| && (lo < hi ==> 0 <= lo + gap && hi + gap <= |was|)
    && (forall k :: 0 <= k < lo ==> now[k] == was[k])
    && (forall k :: lo <= k < hi ==> now[k] == was[k + gap])
    && (forall k :: hi <= k < |was| ==> now[k] == was[k])
  }

  method MoveForward(buf: array<byte>, dest: nat, src: nat, len: nat)
    requires dest < src && src + len <= buf.Length
    modifies buf
    ensures Shifted(buf[..], old(buf[..]), dest, dest + len, src - dest)
  {
    var i, gap := 0, src - dest;
    ghost var was := buf[..];
    while i < len
      invariant 0 <= i <= len && Shifted(buf[..], was, dest, dest + i, gap)
    {
      var at := dest + i;
      assert buf[at + gap] == was[at + gap];
      buf[at] := buf[at + gap];
      i := i + 1;
    }
  }

  method MoveBackward(buf: array<byte>, dest: nat, src: nat, len: nat)
    requires src < dest && dest + len <= buf.Length
    modifies buf
    ensures Shifted(buf[..], old(buf[..]), dest, dest + len, src - dest)
  {
    var i, gap := len, src - dest;
    ghost var was, end := buf[..], dest + len;
    while i > 0
      invariant 0 <= i <= len && Shifted(buf[..], was, dest + i, end, gap)
    {
      var at := dest + i - 1;
      assert buf[at + gap] == was[at + gap];
      buf[at] := buf[at + gap];
      i := i - 1;
    }
  }

  lemma ShiftedIsMoved(now: Bytes, was: Bytes, dest: nat, src: nat, len: nat)
    requires dest + len <= |was| && src + len <= |was| && Shifted(now, was, dest, dest + len, src - dest)
    ensures now == Moved(was, dest, src, len)
  {}

  /** Bytes moved within one buffer, from the end that the overlap leaves intact. */
  method MoveBytes(buf: array<byte>, dest: nat, src: nat, len: int)
    requires len >= 0 ==> dest + len <= buf.Length && src + len <= buf.Length
    modifies buf
    ensures buf[..] == if len >= 0 then Moved(old(buf[..]), dest, src, len) else old(buf[..])
  {
    ghost var was := buf[..];
    if dest == src || len <= 0 {
      if len >= 0 { ShiftedIsMoved(was, was, dest, src, len); }
      return;
    }
    if dest < src {
      MoveForward(buf, dest, src, len);
    } else {
      MoveBackward(buf, dest, src, len);
    }
    ShiftedIsMoved(buf[..], was, dest, src, len);
  }

  // ---- the connection ----

  /** What a look at the buffer goes by: the bytes in it, and the byte at its fifth place whether or not it is in it. */
  datatype Front = Front(bytes: Bytes, next: byte)

  /** The copy would not fit: the first length wraps, or the first packet has a payload that is too long. */
  ghost predicate TooLong(f: Front, max: nat, room: nat)
  {
    Wrapped(f.bytes, f.next) || exists q :: Starts(f.bytes, q, max) && |q.payload| > room
  }

  /** The three answers of the decoder, and a copy that would run past the end of the payload buffer. */
  datatype Status = Wait | Bad | Decoded | Overrun

  class Connection {
    const rx: array<byte>
    const max: nat       // of a whole packet
    const room: nat      // for a payload
    var rxLen: nat
    var rxSeq: nat

    ghost predicate Valid()
      reads this
    {
      5 <= rx.Length < SIGN && max < SIGN && room < SIGN - 0x104 && rxLen <= rx.Length && rxSeq < WORD
    }

    ghost function Buffer(): Bytes
      requires Valid()
      reads this, rx
    {
      rx[..rxLen]
    }

    ghost predicate Overlong()
      requires Valid()
      reads this, rx
    {
      TooLong(Front(Buffer(), rx[4]), max, room)
    }

    constructor (size: nat, most: nat, space: nat)
      requires 5 <= size < SIGN && most < SIGN && space < SIGN - 0x104
      ensures Valid() && fresh(rx) && rx.Length == size && max == most && room == space && Buffer() == [] && rxSeq == 0
    {
      rx, max, room, rxLen, rxSeq := new byte[size], most, space, 0, 0;
    }

    /** ssh_append_rx */
    method Append(data: Bytes) returns (ok: bool)
      requires Valid()
      modifies this, rx
      ensures Valid() && rxSeq == old(rxSeq) && ok == (old(rxLen) + |data| <= rx.Length)
      ensures Buffer() == old(Buffer()) + if ok then data else []
    {
      if rxLen + |data| > rx.Length { return false; }
      ghost var was := Buffer();
      var i := 0;
      while i < |data|
        invariant 0 <= i <= |data| && rxLen == |was| && Valid() && rxSeq == old(rxSeq) && rxLen + |data| <= rx.Length
        invariant rx[..rxLen + i] == was + data[..i]
      {
        rx[rxLen + i] := data[i];
        i := i + 1;
      }
      rxLen := rxLen + |data|;
      assert data[..|data|] == data;
      return true;
    }

    /** ssh_try_decode_plain_packet_buffer: the payload of the packet at the front, which is taken out; more bytes to
        come; or a stream that is not one of packets. A copy that does not fit is not carried out. */
    method TryDecode() returns (status: Status, payload: Bytes, ghost p: Packet)
      requires Valid()
      modifies this, rx
      ensures Valid() && (status == Wait <==> Hungry(old(Buffer()))) && (status == Overrun <==> old(Overlong()))
      ensures status == Decoded ==> Starts(old(Buffer()), p, max) && payload == p.payload && |payload| <= room
      ensures status == Decoded ==> old(Buffer()) == Wire(p) + Buffer() && rxSeq == (old(rxSeq) + 1) % WORD
      ensures status != Decoded ==> rx[..] == old(rx[..]) && rxLen == old(rxLen) && rxSeq == old(rxSeq)
      ensures status == Wait || status == Bad ==> forall q :: !Starts(old(Buffer()), q, max)
    {
      payload, p := [], Packet([], []);
      if rxLen < 4 {
        NoneWhenHungry(Buffer(), max);
        return Wait, payload, p;
      }
      ghost var b := Buffer();
      var n := ReadU32(rx[..4]);
      assert n == ReadU32(b) by { assert rx[..4][..4] == b[..4]; }
      PassesExactly(n, rx[4], rxLen, max);
      var total := TotalOf(n);
      if n < 5 || total > rxLen {
        NoneWhenHungry(b, max);
        return Wait, payload, p;
      }
      if total > max {
        NoneWhenLong(b, max);
        return Bad, payload, p;
      }
      var padding := rx[4];
      var copy := CopyOf(n, padding);
      if padding < 4 || copy < 0 {
        NoneWhenUnpadded(b, padding, max);
        return Bad, payload, p;
      }
      if copy > room {
        if n < SIGN - 4 { p := Cut(b, n, padding, max); }
        return Overrun, payload, p;
      }
      p := Cut(b, n, padding, max);
      OnlyOne(b, p, max);
      payload := rx[5..5 + copy];
      assert payload == b[5..5 + copy];
      Take(total);
      rxSeq := (rxSeq + 1) % WORD;
      return Decoded, payload, p;
    }

    method Take(total: nat)
      requires Valid() && total <= rxLen
      modifies this`rxLen, rx
      ensures Valid() && old(Buffer()) == old(Buffer())[..total] + Buffer()
    {
      MoveBytes(rx, 0, total, rxLen - total);
      rxLen := rxLen - total;
    }
  }

  lemma NoneWhenHungry(b: Bytes, max: nat)
    requires Hungry(b)
    ensures forall q :: !Starts(b, q, max)
  {
    forall q | Starts(b, q, max) ensures false { PartIsHungry(b, q, max); }
  }

  lemma NoneWhenLong(b: Bytes, max: nat)
    requires |b| >= 4 && ReadU32(b) + 4 > max
    ensures forall q :: !Starts(b, q, max)
  {
    forall q | Starts(b, q, max) ensures false { WireLength(b, q, max); }
  }

  lemma NoneWhenUnpadded(b: Bytes, padding: int, max: nat)
    requires |b| >= 4 && (|b| >= 5 ==> padding == b[4])
    requires padding < 4 || !(padding < ReadU32(b) < SIGN - 4)
    ensures forall q :: !Starts(b, q, max)
  {
    forall q | Starts(b, q, max) ensures false { WireLength(b, q, max); }
  }

  lemma OnlyOne(b: Bytes, p: Packet, max: nat)
    requires Starts(b, p, max)
    ensures forall q :: Starts(b, q, max) ==> q == p
  {
    forall q | Starts(b, q, max) ensures q == p { OneStarts(b, p, q, max); }
  }

  /** The bytes that the decoder cuts out are a packet. */
  lemma Cut(b: Bytes, n: nat, padding: byte, max: nat) returns (p: Packet)
    requires |b| >= 5 && 5 <= n == ReadU32(b) && n + 4 <= |b| && n + 4 <= max < SIGN && padding == b[4]
    requires 4 <= padding < n
    ensures Starts(b, p, max) && p.payload == b[5..n + 4 - padding] && Wire(p) == b[..n + 4]
  {
    var cut, total := n + 4 - padding, n + 4;
    p := Packet(b[5..cut], b[cut..total]);
    var head, body := b[..4], b[4..total];
    assert body == [b[4]] + b[5..cut] + b[cut..total];
    assert Body(p) == body && |body| == n;
    assert head[..4] == head;
    Rewritten(head);
    assert b[..total] == head + body;
  }

  /** Four bytes read and written again are the same bytes. */
  lemma Rewritten(b: Bytes)
    requires |b| == 4
    ensures U32(ReadU32(b)) == b
  {
    U32RoundTrip(ReadU32(b), []);
    assert U32(ReadU32(b)) + [] == U32(ReadU32(b)) && b[..4] == b && U32(ReadU32(b))[..4] == U32(ReadU32(b));
    BigInjective(U32(ReadU32(b)), b);
  }

  // ---- whole runs ----

  /** Bytes arrive from the peer, and the server looks for a packet: in any order, and as often as may be. */
  datatype Event = Arrive(chunk: Bytes) | Poll

  /** How a connection stands: open, closed over a full buffer or a bad packet, or past a copy that did not fit. */
  datatype End = Going | Overflow | Invalid | Overran

  ghost function Arrived(events: seq<Event>): Bytes
  {
    if events == [] then []
    else
      var last := events[|events| - 1];
      Arrived(events[..|events| - 1]) + if last.Arrive? then last.chunk else []
  }

  ghost function Polls(events: seq<Event>): nat
  {
    if events == [] then 0 else Polls(events[..|events| - 1]) + if events[|events| - 1].Poll? then 1 else 0
  }

  /** Everything received is the packets handed out, in order, followed by what is in the buffer. */
  ghost predicate Account(conn: Connection, got: Bytes, ps: seq<Packet>, out: seq<Bytes>, start: nat)
    reads conn, conn.rx
  {
    && conn.Valid() && AllFine(ps, conn.max) && got == Stream(ps, conn.max) + conn.Buffer()
    && out == Payloads(ps) && conn.rxSeq == (start + |ps|) % WORD
  }

  /** The buffer does not fit the chunk that comes after what was received. */
  ghost predicate TooMuch(conn: Connection, events: seq<Event>, got: Bytes, i: nat)
    reads conn
  {
    && i < |events| && events[i].Arrive? && got == Arrived(events[..i])
    && conn.rxLen + |events[i].chunk| > conn.rx.Length
  }

  /** The front of the buffer is no packet and will not become one. */
  ghost predicate Refused(conn: Connection)
    requires conn.Valid()
    reads conn, conn.rx
  {
    && !Hungry(conn.Buffer()) && !Wrapped(conn.Buffer(), conn.rx[4])
    && forall q :: !Starts(conn.Buffer(), q, conn.max)
  }

  lemma Accounted(got: Bytes, ps: seq<Packet>, p: Packet, rest: Bytes, max: nat)
    requires AllFine(ps, max) && Fine(p, max) && got == Stream(ps, max) + (Wire(p) + rest)
    ensures AllFine(ps + [p], max) && got == Stream(ps + [p], max) + rest
    ensures Payloads(ps + [p]) == Payloads(ps) + [p.payload]
  {
    StreamSnoc(ps, p, max);
    Regroup(Stream(ps, max), Wire(p), rest);
  }

  lemma Counted(n: nat)
    ensures (n % WORD + 1) % WORD == (n + 1) % WORD
  {
    ModAdd(n, 1, WORD);
  }

  method Look(conn: Connection, out: seq<Bytes>, ghost got: Bytes, ghost ps: seq<Packet>, ghost start: nat)
    returns (status: Status, out': seq<Bytes>, ghost ps': seq<Packet>)
    requires Account(conn, got, ps, out, start)
    modifies conn, conn.rx
    ensures Account(conn, got, ps', out', start) && (status == Overrun <==> old(conn.Overlong()))
    ensures if status == Decoded then conn.rxLen < old(conn.rxLen) else conn.rxLen == old(conn.rxLen)
    ensures status == Wait ==> Hungry(conn.Buffer())
    ensures status == Bad ==> Refused(conn)
    ensures status == Overrun ==> conn.Overlong()
  {
    ghost var p;
    var payload;
    status, payload, p := conn.TryDecode();
    out', ps' := out, ps;
    if status == Decoded {
      out', ps' := out + [payload], ps + [p];
      Accounted(got, ps, p, conn.Buffer(), conn.max);
      Counted(start + |ps|);
    }
  }

  method Receive(conn: Connection, chunk: Bytes, out: seq<Bytes>, ghost got: Bytes, ghost ps: seq<Packet>,
                 ghost start: nat)
    returns (ok: bool)
    requires Account(conn, got, ps, out, start)
    modifies conn, conn.rx
    ensures ok ==> Account(conn, got + chunk, ps, out, start)
    ensures !ok ==> Account(conn, got, ps, out, start) && conn.rxLen + |chunk| > conn.rx.Length
  {
    Regroup(Stream(ps, conn.max), conn.Buffer(), chunk);
    ok := conn.Append(chunk);
  }

  /** Whatever arrives and however it is cut, nothing is lost, made up or handed out twice. The run ends with a copy
      that does not fit exactly if some look finds a front that is too long. */
  method Run(conn: Connection, events: seq<Event>)
    returns (out: seq<Bytes>, end: End, ghost got: Bytes, ghost ps: seq<Packet>, ghost n: nat, ghost fronts: seq<Front>)
    requires conn.Valid() && conn.Buffer() == []
    modifies conn, conn.rx
    ensures Account(conn, got, ps, out, old(conn.rxSeq)) && got <= Arrived(events)
    ensures n <= |events| && |fronts| == Polls(events[..n])
    ensures end == Going ==> n == |events| && got == Arrived(events)
    ensures end == Invalid ==> Refused(conn)
    ensures end == Overflow ==> exists i: nat :: TooMuch(conn, events, got, i)
    ensures end == Overran <==> exists k :: 0 <= k < |fronts| && TooLong(fronts[k], conn.max, conn.room)
    ensures end == Overran ==> conn.Overlong()
  {
    ghost var start := conn.rxSeq;
    out, end, got, ps, n, fronts := [], Going, [], [], 0, [];
    var i := 0;
    while i < |events| && end == Going
      invariant 0 <= i == n <= |events| && Account(conn, got, ps, out, start) && got <= Arrived(events)
      invariant |fronts| == Polls(events[..i])
      invariant end == Going ==> got == Arrived(events[..i])
      invariant end == Invalid ==> Refused(conn)
      invariant end == Overflow ==> exists i: nat :: TooMuch(conn, events, got, i)
      invariant end == Overran ==> conn.Overlong()
      invariant end == Overran <==> exists k :: 0 <= k < |fronts| && TooLong(fronts[k], conn.max, conn.room)
      decreases |events| - i
    {
      ArrivedNext(events, i);
      match events[i] {
        case Arrive(chunk) =>
          var ok := Receive(conn, chunk, out, got, ps, start);
          if ok {
            got := got + chunk;
          } else {
            end := Overflow;
            assert TooMuch(conn, events, got, i);
          }
        case Poll =>
          ghost var f := Front(conn.Buffer(), conn.rx[4]);
          var status;
          status, out, ps := Look(conn, out, got, ps, start);
          if status == Bad { end := Invalid; }
          if status == Overrun { end := Overran; }
          assert (fronts + [f])[|fronts|] == f;
          assert forall k :: 0 <= k < |fronts| ==> (fronts + [f])[k] == fronts[k];
          fronts := fronts + [f];
      }
      i, n := i + 1, n + 1;
    }
    assert events[..|events|] == events;
  }

  lemma ArrivedNext(events: seq<Event>, i: nat)
    requires i < |events|
    ensures Arrived(events[..i + 1]) == Arrived(events[..i]) + if events[i].Arrive? then events[i].chunk else []
    ensures Arrived(events[..i + 1]) <= Arrived(events)
    ensures Polls(events[..i + 1]) == Polls(events[..i]) + if events[i].Poll? then 1 else 0
    decreases |events| - i
  {
    assert events[..i + 1][..i] == events[..i];
    if i + 1 < |events| {
      ArrivedNext(events, i + 1);
    } else {
      assert events[..i + 1] == events;
    }
  }

  /** Packets that arrive in any cutting are handed out in order and unchanged; none is ever refused, and one that is
      not copied has a payload that does not fit; and once the server has nothing more to take, every packet that is
      there whole has been handed out. */
  method Deliver(ghost sent: seq<Packet>, events: seq<Event>, size: nat, most: nat, space: nat)
    returns (out: seq<Bytes>, end: End)
    requires 5 <= size < SIGN && most < SIGN && space < SIGN - 0x104
    requires AllFine(sent, most) && Arrived(events) <= Stream(sent, most)
    ensures end != Invalid && out <= Payloads(sent)
    ensures end == Overran ==> |out| < |sent| && |sent[|out|].payload| > space
    ensures end == Going && |out| < |sent| ==> |Arrived(events)| < |Stream(sent[..|out| + 1], most)|
  {
    var conn := new Connection(size, most, space);
    ghost var got, ps, n, fronts;
    out, end, got, ps, n, fronts := Run(conn, events);
    Settled(conn, sent, got, ps, out, 0);
    if end == Going {
      var status := Decoded;
      while status == Decoded
        invariant Account(conn, got, ps, out, 0) && fresh(conn) && fresh(conn.rx) && conn.max == most
        invariant conn.room == space && status != Bad && |ps| <= |sent| && out <= Payloads(sent)
        invariant status == Overrun ==> |out| < |sent| && |sent[|out|].payload| > space
        invariant status == Wait && |out| < |sent| ==> |got| < |Stream(sent[..|out| + 1], most)|
        decreases conn.rxLen, status == Decoded
      {
        status, out, ps := Look(conn, out, got, ps, 0);
        Settled(conn, sent, got, ps, out, 0);
      }
      if status == Overrun { end := Overran; }
    }
  }

  /** The packets handed out of a stream of packets are its first ones, and the next is not refused. */
  lemma Settled(conn: Connection, sent: seq<Packet>, got: Bytes, ps: seq<Packet>, out: seq<Bytes>, start: nat)
    requires Account(conn, got, ps, out, start) && AllFine(sent, conn.max) && got <= Stream(sent, conn.max)
    ensures ps <= sent && out <= Payloads(sent) && !Refused(conn)
    ensures Hungry(conn.Buffer()) && |out| < |sent| ==> |got| < |Stream(sent[..|out| + 1], conn.max)|
    ensures conn.Overlong() ==> |out| < |sent| && |sent[|out|].payload| > conn.room
  {
    var tail, n := conn.Buffer(), |ps|;
    SplitIsUnique(ps, tail, sent, conn.max);
    var rest := sent[n..];
    LeftIsGood(tail, rest, conn.max);
    NextTooLong(tail, rest, conn.rx[4], conn.max, conn.room);
    if n < |sent| {
      assert rest[0] == sent[n] && sent[..n + 1] == ps + [sent[n]];
      StreamSnoc(ps, sent[n], conn.max);
      if Starts(tail, sent[n], conn.max) { PartIsHungry(tail, sent[n], conn.max); }
    }
  }

  /** In a stream of packets a front is too long only if its payload is. */
  lemma NextTooLong(tail: Bytes, sent: seq<Packet>, next: byte, max: nat, room: nat)
    requires AllFine(sent, max) && tail <= Stream(sent, max)
    ensures TooLong(Front(tail, next), max, room) ==> sent != [] && |sent[0].payload| > room
  {
    if TooLong(Front(tail, next), max, room) {
      LeftIsGood(tail, sent, max);
      if sent != [] && Starts(tail, sent[0], max) {
        OnlyOne(tail, sent[0], max);
        WireLength(tail, sent[0], max);
      } else if Wrapped(tail, next) {
        assert false;
      } else {
        NoneWhenHungry(tail, max);
      }
    }
  }

  /** With the sizes of ssh_server.c, a packet within the limit whose payload is longer than the payload buffer. */
  lemma LongPayload()
    ensures var p := Packet(seq(1793, i => 0), [0, 0, 0, 0]);
      Fine(p, 2048) && TooLong(Front(Wire(p), 4), 2048, 1792)
  {
    var p := Packet(seq(1793, i => 0), [0, 0, 0, 0]);
    assert Starts(Wire(p), p, 2048);
  }
}
