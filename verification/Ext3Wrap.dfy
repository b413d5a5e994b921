/** ext3_write of ext3fs.c past the end of the 32-bit range, in a file that has all the blocks concerned. */
module Ext3Wrap {
  import opened Digits
  import opened Ext3Map
  import opened Ext3Ensure
  import opened Ext3Blocks
  import opened Ext3Bytes
  import opened Ext3Pending
  import opened Ext3Files
  import Ext3Read

  const RANGE := 0x10_0000      // blocks below 2^32

  // ---- where the bytes go ----

  /** Which byte of the buffer position pos gets, if it gets one. */
  function Offset(base: nat, pos: nat): int { if pos >= base then pos - base else pos + WORD - base }

  /** One of the first total bytes goes to position pos. */
  predicate Covered(base: nat, total: nat, pos: nat) { pos < WORD && 0 <= Offset(base, pos) < total }

  /** Which turn of the loop comes to block l, and which block a turn comes to. */
  function TurnOf(base: nat, l: nat): int { if l >= base / BLOCK then l - base / BLOCK else l + RANGE - base / BLOCK }

  function BlockAt(base: nat, n: nat): int
  {
    if base / BLOCK + n < RANGE then base / BLOCK + n else base / BLOCK + n - RANGE
  }

  /** The write ends before it comes to the block it started in. */
  predicate ComesRound(base: nat, count: nat) { base < WORD && base + count <= WORD + base / BLOCK * BLOCK }

  /** Where turn n stands when total bytes are placed. */
  ghost predicate AtTurn(base: nat, count: nat, total: nat, n: nat)
  {
    && total <= count
    && (total < count ==> n < RANGE && Position(base, total) / BLOCK == BlockAt(base, n))
    && (total < count && n > 0 ==> Position(base, total) % BLOCK == 0)
  }

  lemma TurnStart(base: nat, count: nat)
    requires ComesRound(base, count)
    ensures AtTurn(base, count, 0, 0)
  {}

  lemma TurnNext(base: nat, count: nat, total: nat, n: nat, pos: nat, l: nat, at: nat, chunk: nat)
    requires ComesRound(base, count) && AtTurn(base, count, total, n) && total < count && pos == Position(base, total)
    requires l == pos / BLOCK && at == pos % BLOCK && chunk == ChunkSize(pos, count - total)
    ensures 0 < chunk && at + chunk <= BLOCK && pos + chunk <= WORD && l <= SECOND_STAGE
    ensures AtTurn(base, count, total + chunk, n + 1) && TurnOf(base, l) == n
  {
    assert pos == l * BLOCK + at;
    if total + chunk < count { NextBlock(base, count, total, n, pos, l, at, pos + chunk, total + chunk); }
  }

  lemma NextBlock(base: nat, count: nat, total: nat, n: nat, pos: nat, l: nat, at: nat, end: nat, total': nat)
    requires ComesRound(base, count) && l == BlockAt(base, n) && n < RANGE && total < total' < count
    requires pos == Position(base, total) == l * BLOCK + at && end == (l + 1) * BLOCK && total' == total + (end - pos)
    ensures n + 1 < RANGE && Position(base, total') / BLOCK == BlockAt(base, n + 1)
    ensures Position(base, total') % BLOCK == 0
  {
    var next := Position(base, total');
    if l + 1 == RANGE {
      assert end == WORD && next == 0;
    } else {
      assert next == end;
      MultipleOf(l + 1, end);
    }
  }

  lemma MultipleOf(l: nat, end: nat)
    requires end == l * BLOCK
    ensures end / BLOCK == l && end % BLOCK == 0
  {}

  lemma CoveredNext(base: nat, count: nat, total: nat, pos: nat, chunk: nat, p: nat)
    requires ComesRound(base, count) && total + chunk <= count && pos == Position(base, total) && pos + chunk <= WORD
    ensures Covered(base, total + chunk, p) <==> Covered(base, total, p) || pos <= p < pos + chunk
    ensures pos <= p < pos + chunk ==> Offset(base, p) == total + (p - pos)
  {}

  // ---- one turn ----

  ghost predicate Mapped(fs: Fs, i: nat, base: nat, count: nat)
    requires Shaped(fs) && i < |fs.inodes|
  {
    forall k {:trigger Position(base, k)} :: 0 <= k < count ==> BlockOf(fs, i, Position(base, k) / BLOCK) != 0
  }

  /** The first total bytes are in place, and no other byte of any file has changed. */
  ghost predicate Wrote(fs: Fs, es: Fs, i: nat, base: nat, total: nat, buf: Bytes)
    requires Inv(fs) && i < |fs.inodes| && total <= |buf|
  {
    && Inv(es) && es.inodes == fs.inodes
    && (forall l {:trigger BlockOf(es, i, l)} :: BlockOf(es, i, l) == BlockOf(fs, i, l))
    && (forall i': nat, p: nat {:trigger FileByte(es, i', p)} :: i' < |fs.inodes| ==>
         FileByte(es, i', p) ==
         if i' == i && Covered(base, total, p) then buf[Offset(base, p)]
         else FileByte(fs, i', p))
  }

  /** Blocks still to come are not on the list. */
  ghost predicate Ahead(fs: Fs, dirty: seq<Dirty>, i: nat, base: nat, n: nat)
    requires Shaped(fs) && i < |fs.inodes|
  {
    forall l: nat {:trigger BlockOf(fs, i, l)} :: BlockOf(fs, i, l) != 0 && TurnOf(base, l) >= n ==>
      Avoids(dirty, BlockOf(fs, i, l))
  }

  lemma AheadNext(fs: Fs, dirty: seq<Dirty>, i: nat, base: nat, n: nat, l: nat, w: Words)
    requires Inv(fs) && i < |fs.inodes| && Ahead(fs, dirty, i, base, n) && BlockOf(fs, i, l) != 0
    requires TurnOf(base, l) == n
    ensures Ahead(fs, [Dirty(BlockOf(fs, i, l), w)] + dirty, i, base, n + 1)
  {
    var b := BlockOf(fs, i, l);
    forall l': nat {:trigger BlockOf(fs, i, l')} | BlockOf(fs, i, l') != 0 && TurnOf(base, l') >= n + 1
      ensures Avoids([Dirty(b, w)] + dirty, BlockOf(fs, i, l'))
    {
      if l < l' { LaterDiffers(fs, i, l, l'); } else if l' < l { LaterDiffers(fs, i, l', l); }
    }
  }

  /** A mapped block patched: the bytes of its chunk change and no others. */
  lemma PokeDone(es: Fs, i: nat, l: nat, at: nat, d: Bytes, w: Words)
    requires Inv(es) && i < |es.inodes| && l <= SECOND_STAGE && BlockOf(es, i, l) != 0 && at + |d| <= BLOCK
    requires |w| == PTRS && ToBytes(w) == Spliced(Data(es, i, l), at, d)
    ensures 0 < BlockOf(es, i, l) < |es.disk| && Valid(es, PathOf(i, l))
    ensures ChunkDone(es, Poke(es, BlockOf(es, i, l), w), i, l, at, d)
  {
    PathOfValid(es, i, l);
    NeedMapped(es, PathOf(i, l));
    PokeKeepsInv(es, i, l, w);
    var es' := Poke(es, BlockOf(es, i, l), w);
    forall i': nat, l' | i' < |es.inodes|
      ensures BlockOf(es', i', l') == BlockOf(es, i', l')
      ensures Data(es', i', l') == if (i', l') == (i, l) then Spliced(Data(es, i, l), at, d) else Data(es, i', l')
    {
      PokeData(es, i, l, w, i', l');
    }
  }

  lemma WroteByte(fs: Fs, es: Fs, es': Fs, i: nat, base: nat, total: nat, buf: Bytes, pos: nat, l: nat, at: nat,
                  d: Bytes, i': nat, p: nat)
    requires Inv(fs) && i < |fs.inodes| && total + |d| <= |buf| && Wrote(fs, es, i, base, total, buf)
    requires ComesRound(base, |buf|) && pos == Position(base, total) && pos + |d| <= WORD
    requires l == pos / BLOCK && at == pos % BLOCK && at + |d| <= BLOCK && l <= SECOND_STAGE && Valid(es, PathOf(i, l))
    requires d == buf[total..][..|d|] && ChunkDone(es, es', i, l, at, d) && i' < |fs.inodes|
    ensures FileByte(es', i', p) ==
      if i' == i && Covered(base, total + |d|, p) then buf[Offset(base, p)]
      else FileByte(fs, i', p)
  {
    assert pos == l * BLOCK + at;
    ByteStep(es, es', i, l, at, d, pos, i', p);
    CoveredNext(base, |buf|, total, pos, |d|, p);
    if pos <= p < pos + |d| { PieceAt(d, buf, total, p - pos, Offset(base, p)); }
    assert FileByte(es, i', p) ==
      if i' == i && Covered(base, total, p) then buf[Offset(base, p)]
      else FileByte(fs, i', p);
  }

  lemma WroteNext(fs: Fs, es: Fs, i: nat, base: nat, total: nat, buf: Bytes, pos: nat, l: nat, at: nat, d: Bytes,
                  b: int, w: Words)
    requires Inv(fs) && i < |fs.inodes| && total + |d| <= |buf| && Wrote(fs, es, i, base, total, buf)
    requires ComesRound(base, |buf|) && pos == Position(base, total) && pos + |d| <= WORD
    requires l == pos / BLOCK && at == pos % BLOCK && at + |d| <= BLOCK && l <= SECOND_STAGE
    requires d == buf[total..][..|d|] && b == BlockOf(es, i, l) != 0
    requires |w| == PTRS && ToBytes(w) == Spliced(Data(es, i, l), at, d)
    ensures 0 < b < |es.disk| && Wrote(fs, Poke(es, b, w), i, base, total + |d|, buf)
  {
    PokeDone(es, i, l, at, d, w);
    var es' := Poke(es, b, w);
    forall l' {:trigger BlockOf(es', i, l')} ensures BlockOf(es', i, l') == BlockOf(fs, i, l') {
      PokeData(es, i, l, w, i, l');
    }
    forall i': nat, p: nat {:trigger FileByte(es', i', p)} | i' < |fs.inodes|
      ensures FileByte(es', i', p) ==
        if i' == i && Covered(base, total + |d|, p) then buf[Offset(base, p)]
        else FileByte(fs, i', p)
    {
      WroteByte(fs, es, es', i, base, total, buf, pos, l, at, d, i', p);
    }
  }

  /** The list with block b on it amounts to the state with b written. */
  lemma PushedOver(fs: Fs, dirty: seq<Dirty>, b: int, w: Words)
    requires Writable(dirty, |fs.disk|) && 0 <= b < |fs.disk| && |w| == PTRS && Avoids(dirty, b)
    ensures Writable([Dirty(b, w)] + dirty, |fs.disk|)
    ensures Overlay(fs, [Dirty(b, w)] + dirty) == Poke(Overlay(fs, dirty), b, w)
  {
    FlushedPush(fs.disk, b, w, dirty);
  }

  /** What the list amounts to, and that the block to come is on the disk as that has it. */
  ghost predicate Listed(fs: Fs, dirty: seq<Dirty>, es: Fs, i: nat, base: nat, n: nat, total: nat, buf: Bytes)
    requires Inv(fs) && i < |fs.inodes| && total <= |buf|
  {
    Writable(dirty, |fs.disk|) && es == Overlay(fs, dirty) && Wrote(fs, es, i, base, total, buf) &&
    Ahead(fs, dirty, i, base, n)
  }

  /** A block that is there is found twice over, and nothing changes. */
  method Find(e: Ext3, i: nat, l: nat) returns (r: int)
    requires Inv(e.View()) && i < |e.inodes| && l <= SECOND_STAGE && BlockOf(e.View(), i, l) != 0
    modifies e`inodes, e`dirty, e`superFree, e`groupFree, e.bitmap
    ensures e.View() == old(e.View()) && e.dirty == old(e.dirty) && e.Drift() == old(e.Drift())
    ensures r == BlockOf(e.View(), i, l)
  {
    ghost var fs := e.View();
    InvFindable(fs, i, l);
    PathOfValid(fs, i, l);
    NeedMapped(fs, PathOf(i, l));
    AcquireRuns(fs, PathOf(i, l));
    RunMapped(fs, PathOf(i, l));
    NothingAdded(e.dirty);
    var existed;
    existed, r := Locate(e, i, l);
  }

  lemma ListedNext(fs: Fs, dirty: seq<Dirty>, es: Fs, i: nat, base: nat, n: nat, total: nat, buf: Bytes, pos: nat,
                   l: nat, at: nat, d: Bytes, r: int, w: Words)
    requires Inv(fs) && i < |fs.inodes| && total + |d| <= |buf| && Listed(fs, dirty, es, i, base, n, total, buf)
    requires ComesRound(base, |buf|) && pos == Position(base, total) && pos + |d| <= WORD
    requires l == pos / BLOCK && at == pos % BLOCK && at + |d| <= BLOCK && l <= SECOND_STAGE && TurnOf(base, l) == n
    requires d == buf[total..][..|d|] && r == BlockOf(fs, i, l) != 0 && 0 < r < |fs.disk|
    requires w == Patched(fs.disk[r], true, at, d)
    ensures Listed(fs, [Dirty(r, w)] + dirty, Poke(es, r, w), i, base, n + 1, total + |d|, buf)
  {
    assert BlockOf(es, i, l) == r;
    FlushedAvoids(fs.disk, dirty, r);
    WroteNext(fs, es, i, base, total, buf, pos, l, at, d, r, w);
    PushedOver(fs, dirty, r, w);
    AheadNext(fs, dirty, i, base, n, l, w);
  }

  method Turn(e: Ext3, i: nat, base: nat, total: nat, buf: Bytes, ghost n: nat, ghost es: Fs)
    returns (total': nat, ghost es': Fs)
    requires Inv(e.View()) && i < |e.inodes| && total < |buf| && ComesRound(base, |buf|)
    requires AtTurn(base, |buf|, total, n) && Mapped(e.View(), i, base, |buf|)
    requires Listed(e.View(), e.dirty, es, i, base, n, total, buf)
    modifies e`inodes, e`dirty, e`superFree, e`groupFree, e.bitmap
    ensures e.View() == old(e.View()) && e.Drift() == old(e.Drift())
    ensures total < total' <= |buf| && AtTurn(base, |buf|, total', n + 1)
    ensures Listed(e.View(), e.dirty, es', i, base, n + 1, total', buf)
  {
    var pos := Position(base, total);
    var lblock, at, d := Split(pos, buf[total..]);
    TurnNext(base, |buf|, total, n, pos, lblock, at, |d|);
    ghost var fs, dirty := e.View(), e.dirty;
    Ext3Read.PathInDisk(fs, i, lblock);
    var r := Find(e, i, lblock);
    var content := Patched(e.disk[r], true, at, d);
    ListedNext(fs, dirty, es, i, base, n, total, buf, pos, lblock, at, d, r, content);
    e.MarkBlockDirty(r, content);
    total', es' := total + |d|, Poke(es, r, content);
  }

  /** ext3_write from base on, when that runs past 2^32 or not: the bytes before 2^32 go where they should, the rest to
      the start of the file, and the size becomes at least the 32-bit sum. */
  method WriteRound(e: Ext3, i: nat, base: nat, buf: Bytes) returns (fpos': nat)
    requires Inv(e.View()) && i < |e.inodes| && e.dirty == [] && ComesRound(base, |buf|)
    requires Mapped(e.View(), i, base, |buf|)
    modifies e`inodes, e`disk, e`dirty, e`superFree, e`groupFree, e.bitmap
    ensures Inv(e.View()) && |e.inodes| == |old(e.inodes)| && fpos' == Position(base, |buf|)
    ensures forall i': nat, p: nat :: i' < |e.inodes| ==>
      FileByte(e.View(), i', p) ==
      if i' == i && Covered(base, |buf|, p) then buf[Offset(base, p)] else FileByte(old(e.View()), i', p)
    ensures e.inodes[i].size == SizeAfter(old(e.inodes[i].size), fpos')
    ensures e.dirty == [] && e.Drift() == old(e.Drift())
  {
    ghost var fs := e.View();
    ghost var es, n := fs, 0;
    var total := 0;
    TurnStart(base, |buf|);
    NothingYet(fs, i, base, buf);
    while total < |buf|
      invariant 0 <= total <= |buf| && e.View() == fs && AtTurn(base, |buf|, total, n) && e.Drift() == old(e.Drift())
      invariant Listed(fs, e.dirty, es, i, base, n, total, buf)
    {
      total, es := Turn(e, i, base, total, buf, n, es);
      n := n + 1;
    }
    fpos' := Position(base, total);
    Finish(e, i, fpos', es);
  }

  lemma NothingYet(fs: Fs, i: nat, base: nat, buf: Bytes)
    requires Inv(fs) && i < |fs.inodes|
    ensures Listed(fs, [], fs, i, base, 0, 0, buf)
  {}

  /** Twenty bytes written ten below 2^32: the last ten of them are the first ten bytes of the file. */
  lemma TwentyBytesWrap(p: nat)
    requires p < 10
    ensures ComesRound(0xFFFF_FFF6, 20) && Covered(0xFFFF_FFF6, 20, p) && Offset(0xFFFF_FFF6, p) == 10 + p
  {}
}
