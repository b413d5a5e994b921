/** The byte ring of pipe.c: pipe_read and pipe_write as a queue of bytes. */
module PipeRing {
  import opened Digits

  const SIZE := 4096      // PIPE_BUFFER_SIZE

  type Bytes = seq<byte>

  datatype Pipe = Pipe(buffer: Bytes, readPos: int, writePos: int, size: int, readOpen: int, writeOpen: int)

  function NewPipe(): Pipe { Pipe(seq(SIZE, k => 0), 0, 0, 0, 1, 1) }

  /** k places on from pos, around the ring. */
  ghost function Wrap(pos: int, k: int): int { if pos + k < SIZE then pos + k else pos + k - SIZE }

  lemma ModIsWrap(pos: nat, k: nat)
    requires pos < SIZE && k <= SIZE
    ensures (pos + k) % SIZE == Wrap(pos, k)
  {}

  ghost predicate RingGood(p: Pipe)
  {
    |p.buffer| == SIZE && 0 <= p.readPos < SIZE && 0 <= p.size <= SIZE && p.writePos == Wrap(p.readPos, p.size)
  }

  /** The bytes waiting, oldest first. */
  ghost function Waiting(p: Pipe): (q: Bytes)
    requires RingGood(p)
    ensures |q| == p.size && forall k :: 0 <= k < p.size ==> q[k] == p.buffer[Wrap(p.readPos, k)]
  {
    seq(p.size, k requires 0 <= k < p.size => p.buffer[Wrap(p.readPos, k)])
  }

  /** The data part of pipe_read, once there is data: one or two copies out of the ring. */
  method Take(p: Pipe, count: nat) returns (data: Bytes, p': Pipe)
    requires RingGood(p)
    ensures RingGood(p') && p' == p.(readPos := p'.readPos, size := p'.size)
    ensures |data| == (if count > p.size then p.size else count) && Waiting(p) == data + Waiting(p')
  {
    var total := if count > p.size then p.size else count;
    var first := if SIZE - p.readPos > total then total else SIZE - p.readPos;
    data := p.buffer[p.readPos..p.readPos + first];
    if total > first { data := data + p.buffer[..total - first]; }
    p' := p.(readPos := (p.readPos + total) % SIZE, size := p.size - total);
    ModIsWrap(p.readPos, total);
    TakeIsFront(p, total, first, data, p');
  }

  lemma TakeIsFront(p: Pipe, total: nat, first: nat, data: Bytes, p': Pipe)
    requires RingGood(p) && total <= p.size && first == (if SIZE - p.readPos > total then total else SIZE - p.readPos)
    requires data == p.buffer[p.readPos..p.readPos + first] + p.buffer[..total - first]
    requires p' == p.(readPos := Wrap(p.readPos, total), size := p.size - total)
    ensures RingGood(p') && Waiting(p) == data + Waiting(p')
  {
    var q := data + Waiting(p');
    forall k | 0 <= k < p.size ensures Waiting(p)[k] == q[k] {
      if k >= total { assert Waiting(p')[k - total] == p.buffer[Wrap(p'.readPos, k - total)]; }
    }
  }

  /** The data part of pipe_write: as much as fits, in one or two copies into the ring. */
  method Put(p: Pipe, data: Bytes) returns (total: nat, p': Pipe)
    requires RingGood(p)
    ensures RingGood(p') && p' == p.(buffer := p'.buffer, writePos := p'.writePos, size := p'.size)
    ensures total == (if |data| > SIZE - p.size then SIZE - p.size else |data|) &&
      Waiting(p') == Waiting(p) + data[..total]
  {
    total := if |data| > SIZE - p.size then SIZE - p.size else |data|;
    if total == 0 {
      assert Waiting(p) == Waiting(p) + data[..0];
      return 0, p;
    }
    var first := if SIZE - p.writePos > total then total else SIZE - p.writePos;
    var buffer := p.buffer[..p.writePos] + data[..first] + p.buffer[p.writePos + first..];
    if total > first { buffer := data[first..total] + buffer[total - first..]; }
    p' := p.(buffer := buffer, writePos := (p.writePos + total) % SIZE, size := p.size + total);
    ModIsWrap(p.writePos, total);
    PutIsBack(p, data, total, first, buffer, p');
  }

  lemma PutIsBack(p: Pipe, data: Bytes, total: nat, first: nat, buffer: Bytes, p': Pipe)
    requires RingGood(p) && 0 < total <= |data| && total <= SIZE - p.size &&
      first == (if SIZE - p.writePos > total then total else SIZE - p.writePos)
    requires var once := p.buffer[..p.writePos] + data[..first] + p.buffer[p.writePos + first..];
      buffer == if total > first then data[first..total] + once[total - first..] else once
    requires p' == p.(buffer := buffer, writePos := Wrap(p.writePos, total), size := p.size + total)
    ensures RingGood(p') && Waiting(p') == Waiting(p) + data[..total]
  {
    var q := Waiting(p) + data[..total];
    forall k | 0 <= k < p.size + total ensures Waiting(p')[k] == q[k] {
      PutByte(p, data, total, first, buffer, k);
    }
  }

  /** Where byte k of the queue lies after the copies. */
  lemma PutByte(p: Pipe, data: Bytes, total: nat, first: nat, buffer: Bytes, k: nat)
    requires RingGood(p) && 0 < total <= |data| && total <= SIZE - p.size &&
      first == (if SIZE - p.writePos > total then total else SIZE - p.writePos)
    requires var once := p.buffer[..p.writePos] + data[..first] + p.buffer[p.writePos + first..];
      buffer == if total > first then data[first..total] + once[total - first..] else once
    requires k < p.size + total
    ensures |buffer| == SIZE &&
      buffer[Wrap(p.readPos, k)] == if k < p.size then p.buffer[Wrap(p.readPos, k)] else data[k - p.size]
  {
    var j := Wrap(p.readPos, k);
    var w := p.writePos;
    assert buffer[j] ==
      if j < total - first then data[first + j] else if w <= j < w + first then data[j - w] else p.buffer[j];
  }
}
