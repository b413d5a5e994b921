/** ext3_write of ext3fs.c as an operation on a flat file of bytes. */
module Ext3Files {
  import opened Digits
  import opened Ext3Map
  import opened Ext3Ensure
  import opened Ext3Blocks
  import opened Ext3Bytes
  import opened Ext3Pending

  // ---- one turn of the write loop ----

  /** Bytes d went to offset at of logical block l of inode i, and nowhere else. */
  ghost predicate ChunkDone(es: Fs, es': Fs, i: nat, l: nat, at: nat, d: Bytes)
    requires Inv(es) && i < |es.inodes| && at + |d| <= BLOCK && l <= SECOND_STAGE && Valid(es, PathOf(i, l))
  {
    && Inv(es') && |es'.inodes| == |es.inodes|
    && (forall i' :: 0 <= i' < |es.inodes| ==>
         es'.inodes[i'].size == es.inodes[i'].size &&
         es'.inodes[i'].nblocks == es.inodes[i'].nblocks)
    && (forall i': nat, l' {:trigger Data(es', i', l')} :: i' < |es.inodes| ==>
          Data(es', i', l') == if (i', l') == (i, l) then Spliced(Data(es, i, l), at, d) else Data(es, i', l'))
    && (forall l' {:trigger BlockOf(es', i, l')} :: l' != l ==> BlockOf(es', i, l') == BlockOf(es, i, l'))
    && Grown(es, es')
    && FreeCount(es'.used) == FreeCount(es.used) - Need(es, PathOf(i, l))
  }

  /** No slot was cleared. */
  ghost predicate Grown(es: Fs, es': Fs)
  {
    && Shaped(es) && Shaped(es') && |es'.inodes| == |es.inodes|
    && forall q {:trigger Slot(es', q)} :: Valid(es, q) && Slot(es, q) != 0 ==> Slot(es', q) != 0
  }

  lemma NeedMapped(fs: Fs, p: Path)
    requires Shaped(fs) && Valid(fs, p) && Slot(fs, p) != 0
    ensures Need(fs, p) == 0
    decreases Depth(p)
  {
    if !p.Root? { NeedMapped(fs, Parent(p)); }
  }

  function NewContent(was: Bytes, at: nat, d: Bytes): (w: Words)
    requires |was| == BLOCK && at + |d| <= BLOCK
    ensures |w| == PTRS && ToBytes(w) == Spliced(was, at, d)
  {
    BytesRoundTrip(Spliced(was, at, d));
    FromBytes(Spliced(was, at, d))
  }

  /** The block buffer: what was there, or zeros for a new block, with d copied in. */
  function Patched(was: Words, existed: bool, at: nat, d: Bytes): Words
    requires |was| == PTRS && at + |d| <= BLOCK
  {
    NewContent(if existed then ToBytes(was) else ZeroBytes(), at, d)
  }

  lemma MappedContent(fs: Fs, dirty: seq<Dirty>, es: Fs, i: nat, l: nat, end: nat, at: nat, d: Bytes)
    requires Pending(fs, dirty, es, i, l, l, end) && l <= SECOND_STAGE && BlockOf(es, i, l) != 0 && at + |d| <= BLOCK
    ensures Valid(es, PathOf(i, l)) && 0 < BlockOf(es, i, l) < |es.disk| && |fs.disk[BlockOf(es, i, l)]| == PTRS
    ensures ToBytes(Patched(fs.disk[BlockOf(es, i, l)], true, at, d)) == Spliced(Data(es, i, l), at, d)
  {
    PathOfValid(es, i, l);
    var b := BlockOf(es, i, l);
    assert b == Slot(es, PathOf(i, l));
    FlushedAvoids(fs.disk, dirty, b);
  }

  lemma ChunkMapped(fs: Fs, dirty: seq<Dirty>, es: Fs, i: nat, l: nat, end: nat, at: nat, d: Bytes, b: int, w: Words)
    requires Pending(fs, dirty, es, i, l, l, end) && l <= SECOND_STAGE && BlockOf(es, i, l) != 0 && at + |d| <= BLOCK
    requires b == BlockOf(es, i, l) && |w| == PTRS && ToBytes(w) == Spliced(Data(es, i, l), at, d) && 0 <= b < |es.disk|
    ensures Valid(es, PathOf(i, l)) && ChunkDone(es, Poke(es, b, w), i, l, at, d)
    ensures Pending(fs, [Dirty(b, w)] + dirty, Poke(es, b, w), i, l + 1, l + 1, end)
  {
    PathOfValid(es, i, l);
    PendingPush(fs, dirty, es, i, l, end, w);
    NeedMapped(es, PathOf(i, l));
    PokeKeepsInv(es, i, l, w);
    var es' := Poke(es, b, w);
    forall i': nat, l' | i' < |es.inodes|
      ensures BlockOf(es', i', l') == BlockOf(es, i', l')
      ensures Data(es', i', l') == if (i', l') == (i, l) then Spliced(Data(es, i, l), at, d) else Data(es, i', l')
    {
      PokeData(es, i, l, w, i', l');
    }
  }

  lemma ChunkNew(fs: Fs, dirty: seq<Dirty>, es: Fs, gs: Fs, i: nat, l: nat, end: nat, added: seq<Dirty>, at: nat,
                 d: Bytes, b: int, w: Words)
    requires Pending(fs, dirty, es, i, l, l, end) && l < end && Got(es, gs, i, l, added) && Unshared(es, i, l, end)
    requires at + |d| <= BLOCK && b == BlockOf(gs, i, l) && |w| == PTRS && ToBytes(w) == Spliced(ZeroBytes(), at, d) &&
      0 < b < |gs.disk|
    ensures Valid(es, PathOf(i, l)) && ChunkDone(es, Poke(gs, b, w), i, l, at, d)
    ensures Pending(Stale(fs, gs), [Dirty(b, w)] + (added + dirty), Poke(gs, b, w), i, l + 1, l + 1, end)
  {
    PendingAcquire(fs, dirty, es, gs, i, l, end, added);
    PendingPush(Stale(fs, gs), added + dirty, gs, i, l, end, w);
    ChunkNewDone(es, gs, i, l, added, at, d, w);
  }

  lemma ChunkNewDone(es: Fs, gs: Fs, i: nat, l: nat, added: seq<Dirty>, at: nat, d: Bytes, w: Words)
    requires Got(es, gs, i, l, added) && at + |d| <= BLOCK && |w| == PTRS && ToBytes(w) == Spliced(ZeroBytes(), at, d)
    requires 0 < BlockOf(gs, i, l) < |gs.disk|
    ensures ChunkDone(es, Poke(gs, BlockOf(gs, i, l), w), i, l, at, d)
  {
    var es' := Poke(gs, BlockOf(gs, i, l), w);
    PokeKeepsInv(gs, i, l, w);
    forall i': nat, l' | i' < |es.inodes|
      ensures (i', l') != (i, l) ==> BlockOf(es', i', l') == BlockOf(es, i', l')
      ensures Data(es', i', l') == if (i', l') == (i, l) then Spliced(Data(es, i, l), at, d) else Data(es, i', l')
    {
      PokeData(gs, i, l, w, i', l');
      if (i', l') != (i, l) { AcquireKeepsData(es, gs, i, l, added, i', l'); }
    }
    GrownVia(es, gs, es', PathOf(i, l));
  }

  lemma GrownVia(es: Fs, gs: Fs, es': Fs, p: Path)
    requires Shaped(es) && Shaped(es') && Valid(es, p) && Acquired(es, gs, p) &&
      |es'.inodes| == |gs.inodes| == |es.inodes|
    requires forall q {:trigger Slot(es', q)} :: Valid(gs, q) ==> Slot(es', q) == Slot(gs, q)
    ensures Grown(es, es')
  {
    forall q | Valid(es, q) && Slot(es, q) != 0 ensures Slot(es', q) != 0 {
      assert Slot(es', q) == Slot(gs, q);
    }
  }

  /** What ext3_inode_ensure_block left behind when asked for logical block l: the state now read, the list entries,
      the block. */
  ghost predicate Ensured(fs: Fs, fs': Fs, es: Fs, i: nat, l: nat, added: seq<Dirty>, r: int)
    requires Inv(es) && i < |es.inodes|
  {
    if BlockOf(es, i, l) != 0 then fs' == fs && added == [] && r == BlockOf(es, i, l)
    else
      && CanAcquire(es, i, l)
      && var gs := Acquire(es, PathOf(i, l));
      Got(es, gs, i, l, added) && r == BlockOf(gs, i, l) && fs' == Stale(fs, gs)
  }

  lemma ChunkStep(fs: Fs, dirty: seq<Dirty>, es: Fs, i: nat, l: nat, end: nat, at: nat, d: Bytes, fs': Fs,
                  added: seq<Dirty>, r: int, content: Words) returns (es': Fs)
    requires Pending(fs, dirty, es, i, l, l, end) && l <= SECOND_STAGE && l < end && at + |d| <= BLOCK &&
      Unshared(es, i, l, end)
    requires Ensured(fs, fs', es, i, l, added, r)
    requires 0 < r < |fs.disk| && content == Patched(fs.disk[r], BlockOf(es, i, l) != 0, at, d)
    ensures r != 0 && Pending(fs', [Dirty(r, content)] + (added + dirty), es', i, l + 1, l + 1, end)
    ensures Valid(es, PathOf(i, l)) && ChunkDone(es, es', i, l, at, d)
  {
    if BlockOf(es, i, l) != 0 {
      MappedContent(fs, dirty, es, i, l, end, at, d);
      ChunkMapped(fs, dirty, es, i, l, end, at, d, r, content);
      NothingAdded(dirty);
      es' := Poke(es, r, content);
    } else {
      var gs := Acquire(es, PathOf(i, l));
      ChunkNew(fs, dirty, es, gs, i, l, end, added, at, d, r, content);
      es' := Poke(gs, r, content);
    }
  }

  /** The bytes go into the block that was found or acquired, and the block onto the list. */
  method PutChunk(e: Ext3, i: nat, l: nat, at: nat, d: Bytes, existed: bool, r: int, ghost fs: Fs,
                  ghost dirty: seq<Dirty>, ghost added: seq<Dirty>, ghost es: Fs,
                  ghost end: nat) returns (ghost es': Fs)
    requires Pending(fs, dirty, es, i, l, l, end) && l <= SECOND_STAGE && l < end && at + |d| <= BLOCK &&
      Unshared(es, i, l, end)
    requires Ensured(fs, e.View(), es, i, l, added, r) && 0 < r < |fs.disk| && existed == (BlockOf(es, i, l) != 0)
    requires e.disk == fs.disk && e.dirty == added + dirty
    modifies e`dirty
    ensures e.Drift() == old(e.Drift()) && Pending(e.View(), e.dirty, es', i, l + 1, l + 1, end)
    ensures Valid(es, PathOf(i, l)) && ChunkDone(es, es', i, l, at, d)
  {
    var content := Patched(e.disk[r], existed, at, d);
    ghost var fs' := e.View();
    es' := ChunkStep(fs, dirty, es, i, l, end, at, d, fs', added, r, content);
    e.MarkBlockDirty(r, content);
    assert e.View() == fs';
  }

  /** One turn of the loop in ext3_write. */
  method WriteChunk(e: Ext3, i: nat, l: nat, at: nat, d: Bytes, ghost es: Fs, ghost end: nat)
    returns (ok: bool, ghost es': Fs)
    requires Pending(e.View(), e.dirty, es, i, l, l, end) && at + |d| <= BLOCK
    requires l <= SECOND_STAGE ==>
      l < end && Unshared(es, i, l, end) && Valid(es, PathOf(i, l)) && FreeCount(es.used) >= Need(es, PathOf(i, l))
    modifies e`inodes, e`dirty, e`superFree, e`groupFree, e.bitmap
    ensures e.Drift() == old(e.Drift()) && (ok <==> l <= SECOND_STAGE)
    ensures !ok ==> Pending(e.View(), e.dirty, es, i, l, l, end) && es' == es
    ensures ok ==> Pending(e.View(), e.dirty, es', i, l + 1, l + 1, end) && ChunkDone(es, es', i, l, at, d)
  {
    ghost var fs, dirty := e.View(), e.dirty;
    PendingBlock(fs, dirty, es, i, l, l, end, l);
    if l <= SECOND_STAGE { TurnEnsures(fs, dirty, es, i, l, end); }
    var existed, r := Locate(e, i, l);
    if r == 0 { return false, es; }
    ghost var x := Run(fs.inodes, fs.used, fs.disk, PathOf(i, l));
    assert e.View() == Fs(x.inodes, fs.disk, x.used);
    es' := PutChunk(e, i, l, at, d, existed != 0, r, fs, dirty, x.added, es, end);
    ok := true;
  }

  /** The two lookups that open the turn. */
  method Locate(e: Ext3, i: nat, l: nat) returns (existed: int, r: int)
    requires Shaped(e.View()) && i < |e.inodes| && Findable(e.View(), i, l) && |e.Bits()| > 0 && e.Bits()[0]
    requires l <= SECOND_STAGE ==> RunOk(e.inodes, e.Bits(), e.disk, PathOf(i, l))
    modifies e`inodes, e`dirty, e`superFree, e`groupFree, e.bitmap
    ensures e.Drift() == old(e.Drift()) && existed == old(BlockOf(e.View(), i, l))
    ensures l > SECOND_STAGE ==> e.View() == old(e.View()) && r == 0 && e.dirty == old(e.dirty)
    ensures l <= SECOND_STAGE ==> var x := Run(old(e.inodes), old(e.Bits()), e.disk, PathOf(i, l));
      e.Holds(x, old(e.dirty)) && r == x.r
  {
    existed := e.GetBlock(i, l);
    r := e.EnsureBlock(i, l);
  }

  /** What the second lookup will do. */
  lemma TurnMapped(fs: Fs, dirty: seq<Dirty>, es: Fs, i: nat, l: nat, end: nat, p: Path)
    requires Pending(fs, dirty, es, i, l, l, end) && l < end && l <= SECOND_STAGE && p == PathOf(i, l) &&
      BlockOf(es, i, l) != 0 && Valid(es, p)
    requires FreeCount(es.used) >= Need(es, p)
    ensures HasInode(fs.inodes, fs.disk, i) && RunOk(fs.inodes, fs.used, fs.disk, p)
    ensures var x := Run(fs.inodes, fs.used, fs.disk, p);
      Ensured(fs, Fs(x.inodes, fs.disk, x.used), es, i, l, x.added, x.r) && 0 < x.r < |fs.disk|
  {
    SeenAgrees(fs, dirty, es, p);
    RunAgrees(fs.disk, es, p);
    RunOkAgrees(fs.disk, es, p);
    RunMapped(es, p);
  }

  lemma TurnNew(fs: Fs, dirty: seq<Dirty>, es: Fs, i: nat, l: nat, end: nat, p: Path)
    requires Pending(fs, dirty, es, i, l, l, end) && l < end && l <= SECOND_STAGE && p == PathOf(i, l) &&
      BlockOf(es, i, l) == 0 && Valid(es, p)
    requires FreeCount(es.used) >= Need(es, p)
    ensures HasInode(fs.inodes, fs.disk, i) && RunOk(fs.inodes, fs.used, fs.disk, p)
    ensures var x := Run(fs.inodes, fs.used, fs.disk, p);
      Ensured(fs, Fs(x.inodes, fs.disk, x.used), es, i, l, x.added, x.r) && 0 < x.r < |fs.disk|
  {
    SeenAgrees(fs, dirty, es, p);
    EnsureGets(fs.disk, es, i, l);
    var gs := Acquire(es, p);
    assert Slot(gs, p) != 0;
  }

  lemma TurnEnsures(fs: Fs, dirty: seq<Dirty>, es: Fs, i: nat, l: nat, end: nat)
    requires Pending(fs, dirty, es, i, l, l, end) && l < end && l <= SECOND_STAGE && Valid(es, PathOf(i, l)) &&
      FreeCount(es.used) >= Need(es, PathOf(i, l))
    ensures HasInode(fs.inodes, fs.disk, i) && RunOk(fs.inodes, fs.used, fs.disk, PathOf(i, l))
    ensures var x := Run(fs.inodes, fs.used, fs.disk, PathOf(i, l));
      Ensured(fs, Fs(x.inodes, fs.disk, x.used), es, i, l, x.added, x.r) && 0 < x.r < |fs.disk|
  {
    if BlockOf(es, i, l) != 0 {
      TurnMapped(fs, dirty, es, i, l, end, PathOf(i, l));
    } else {
      TurnNew(fs, dirty, es, i, l, end, PathOf(i, l));
    }
  }

  // ---- the loop ----

  /** Where byte k of a write at base goes: file positions are 32 bits wide. */
  function Position(base: nat, k: nat): nat { (base + k) % WORD }

  lemma InRange(base: nat, k: nat)
    requires base + k < WORD
    ensures Position(base, k) == base + k
  {}

  /** One past the last logical block that writing count bytes at base would touch. */
  function Touched(base: nat, count: nat): nat
  {
    if count == 0 then base / BLOCK else (base + count - 1) / BLOCK + 1
  }

  /** Blocks missing from logical blocks l up to end, tables included. */
  ghost function Missing(fs: Fs, i: nat, l: nat, end: nat): nat
    requires Shaped(fs) && i < |fs.inodes|
    decreases end - l
  {
    if l >= end || l > SECOND_STAGE then 0
    else
      PathOfValid(fs, i, l);
      Need(fs, PathOf(i, l)) + Missing(fs, i, l + 1, end)
  }

  ghost predicate Room(fs: Fs, i: nat, l: nat, end: nat)
    requires Shaped(fs) && i < |fs.inodes|
  {
    FreeCount(fs.used) >= Missing(fs, i, l, end) && Unshared(fs, i, l, end)
  }

  lemma NeedShrinks(es: Fs, es': Fs, p: Path)
    requires Grown(es, es') && Valid(es, p)
    ensures Need(es', p) <= Need(es, p)
    decreases Depth(p)
  {
    assert Slot(es', p) == Slot(es', p);
    if !p.Root? { NeedShrinks(es, es', Parent(p)); }
  }

  lemma MissingShrinks(es: Fs, es': Fs, i: nat, l: nat, end: nat)
    requires Grown(es, es') && i < |es.inodes|
    ensures Missing(es', i, l, end) <= Missing(es, i, l, end)
    decreases end - l
  {
    if l < end && l <= SECOND_STAGE {
      PathOfValid(es, i, l);
      NeedShrinks(es, es', PathOf(i, l));
      MissingShrinks(es, es', i, l + 1, end);
    }
  }

  lemma ChangesShrink(es: Fs, es': Fs, p: Path, r: Path)
    requires Grown(es, es') && Valid(es, p) && Changes(es', p, r)
    ensures Changes(es, p, r)
    decreases Depth(p)
  {
    assert Slot(es', p) == Slot(es', p);
    if !(r == Parent(p) && Slot(es', p) == 0) { ChangesShrink(es, es', Parent(p), r); }
  }

  lemma ClashShrinks(es: Fs, es': Fs, p: Path, q: Path)
    requires Grown(es, es') && Valid(es, p) && Valid(es, q) && Clash(es', p, q)
    ensures Clash(es, p, q)
  {
    var r :| Changes(es', p, r) && Changes(es', q, r);
    ChangesShrink(es, es', p, r);
    ChangesShrink(es, es', q, r);
  }

  lemma RoomStep(es: Fs, es': Fs, i: nat, l: nat, end: nat, at: nat, d: Bytes)
    requires Inv(es) && i < |es.inodes| && l < end && l <= SECOND_STAGE && Valid(es, PathOf(i, l)) &&
      Room(es, i, l, end)
    requires at + |d| <= BLOCK && ChunkDone(es, es', i, l, at, d)
    ensures Room(es', i, l + 1, end)
  {
    MissingShrinks(es, es', i, l + 1, end);
    forall a: nat, b: nat {:trigger PathOf(i, a), PathOf(i, b)} | l + 1 <= a < b < end && b <= SECOND_STAGE
      ensures Valid(es', PathOf(i, a)) && Valid(es', PathOf(i, b)) && !Clash(es', PathOf(i, a), PathOf(i, b))
    {
      if Clash(es', PathOf(i, a), PathOf(i, b)) { ClashShrinks(es, es', PathOf(i, a), PathOf(i, b)); }
    }
  }

  /** The first total bytes of buf have gone to position base of file i, and nothing else has changed. */
  ghost predicate Written(fs: Fs, es: Fs, i: nat, base: nat, total: nat, buf: Bytes)
    requires Inv(fs) && i < |fs.inodes| && total <= |buf|
  {
    && Inv(es) && |es.inodes| == |fs.inodes|
    && (forall i' :: 0 <= i' < |fs.inodes| ==>
         es.inodes[i'].size == fs.inodes[i'].size &&
         es.inodes[i'].nblocks == fs.inodes[i'].nblocks)
    && forall i': nat, pos: nat {:trigger FileByte(es, i', pos)} :: i' < |fs.inodes| ==>
         FileByte(es, i', pos) == if i' == i &&
         base <= pos < base + total then buf[pos - base] else FileByte(fs, i', pos)
  }

  lemma WrittenStep(fs: Fs, es: Fs, es': Fs, i: nat, base: nat, total: nat, buf: Bytes, l: nat, at: nat, d: Bytes)
    requires Inv(fs) && i < |fs.inodes| && total + |d| <= |buf| && d == buf[total..][..|d|] &&
      Written(fs, es, i, base, total, buf)
    requires base + total == l * BLOCK + at && at + |d| <= BLOCK && l <= SECOND_STAGE && Valid(es, PathOf(i, l))
    requires ChunkDone(es, es', i, l, at, d)
    ensures Written(fs, es', i, base, total + |d|, buf)
  {
    var end := total + |d|;
    forall i': nat, pos: nat | i' < |fs.inodes|
      ensures FileByte(es', i', pos) == if i' == i &&
        base <= pos < base + end then buf[pos - base] else FileByte(fs, i', pos)
    {
      WrittenByte(fs, es, es', i, base, total, buf, l, at, d, base + total, i', pos);
    }
  }

  lemma WrittenByte(fs: Fs, es: Fs, es': Fs, i: nat, base: nat, total: nat, buf: Bytes, l: nat, at: nat, d: Bytes,
                    from: nat, i': nat, pos: nat)
    requires Inv(fs) && i < |fs.inodes| && total + |d| <= |buf| && Written(fs, es, i, base, total, buf) &&
      d == buf[total..][..|d|]
    requires from == base + total == l * BLOCK + at && at + |d| <= BLOCK && l <= SECOND_STAGE && Valid(es, PathOf(i, l))
    requires ChunkDone(es, es', i, l, at, d) && i' < |fs.inodes|
    ensures FileByte(es', i', pos) == if i' == i &&
      base <= pos < from + |d| then buf[pos - base] else FileByte(fs, i', pos)
  {
    assert FileByte(es, i', pos) == if i' == i && base <= pos < from then buf[pos - base] else FileByte(fs, i', pos);
    ByteStep(es, es', i, l, at, d, from, i', pos);
    if from <= pos < from + |d| { PieceAt(d, buf, total, pos - from, pos - base); }
  }

  lemma PieceAt<T>(d: seq<T>, buf: seq<T>, total: nat, k: nat, at: nat)
    requires total + |d| <= |buf| && d == buf[total..][..|d|] && k < |d| && at == total + k
    ensures d[k] == buf[at]
  {}

  /** A turn sets the bytes of its chunk and no others. */
  lemma ByteStep(es: Fs, es': Fs, i: nat, l: nat, at: nat, d: Bytes, from: nat, i': nat, pos: nat)
    requires Inv(es) && i < |es.inodes| && at + |d| <= BLOCK && l <= SECOND_STAGE && Valid(es, PathOf(i, l))
    requires ChunkDone(es, es', i, l, at, d) && from == l * BLOCK + at && i' < |es.inodes|
    ensures FileByte(es', i', pos) == if i' == i &&
      from <= pos < from + |d| then d[pos - from] else FileByte(es, i', pos)
  {
    var q, o := pos / BLOCK, pos % BLOCK;
    WhereByte(from, |d|, l, at, pos, q, o);
    if i' == i && q == l {
      ByteHere(es, es', i, l, at, d, pos, q, o);
    } else {
      ByteElsewhere(es, es', i, l, at, d, i', pos, q, o);
    }
  }

  lemma ByteElsewhere(es: Fs, es': Fs, i: nat, l: nat, at: nat, d: Bytes, i': nat, pos: nat, q: nat, o: nat)
    requires Inv(es) && i < |es.inodes| && at + |d| <= BLOCK && l <= SECOND_STAGE && Valid(es, PathOf(i, l)) &&
      ChunkDone(es, es', i, l, at, d)
    requires q == pos / BLOCK && o == pos % BLOCK && i' < |es.inodes| && (i', q) != (i, l)
    ensures FileByte(es', i', pos) == FileByte(es, i', pos)
  {
    assert Data(es', i', q) == Data(es, i', q);
  }

  lemma ByteHere(es: Fs, es': Fs, i: nat, l: nat, at: nat, d: Bytes, pos: nat, q: nat, o: nat)
    requires Inv(es) && i < |es.inodes| && at + |d| <= BLOCK && l <= SECOND_STAGE && Valid(es, PathOf(i, l))
    requires ChunkDone(es, es', i, l, at, d) && q == pos / BLOCK && o == pos % BLOCK && q == l
    ensures FileByte(es', i, pos) == if at <= o < at + |d| then d[o - at] else FileByte(es, i, pos)
  {
    assert Data(es', i, q) == Spliced(Data(es, i, l), at, d);
  }

  /** Position pos lies in the part of block l that the chunk covers exactly when it lies in the chunk. */
  lemma WhereByte(from: nat, n: nat, l: nat, at: nat, pos: nat, q: nat, o: nat)
    requires from == l * BLOCK + at && at + n <= BLOCK && q == pos / BLOCK && o == pos % BLOCK
    ensures from <= pos < from + n <==> q == l && at <= o < at + n
    ensures q == l ==> o - at == pos - from
  {}

  // ---- the flat file ----

  /** No stray bytes past the end of file i. */
  ghost predicate TailZero(fs: Fs, i: nat)
    requires Inv(fs) && i < |fs.inodes|
  {
    forall pos: nat {:trigger FileByte(fs, i, pos)} :: fs.inodes[i].size <= pos ==> FileByte(fs, i, pos) == 0
  }

  ghost function Contents(fs: Fs, i: nat): (s: Bytes)
    requires Inv(fs) && i < |fs.inodes| && fs.inodes[i].size >= 0
    ensures |s| == fs.inodes[i].size && forall pos :: 0 <= pos < |s| ==> s[pos] == FileByte(fs, i, pos)
  {
    seq(fs.inodes[i].size, pos requires 0 <= pos => FileByte(fs, i, pos))
  }

  /** Flat file s with d written at position base, the gap filled with zeros. */
  ghost function FlatWrite(s: Bytes, base: nat, d: Bytes): (r: Bytes)
    ensures |r| == if |s| < base + |d| then base + |d| else |s|
    ensures forall pos :: 0 <= pos < |r| ==>
      r[pos] == if base <= pos < base + |d| then d[pos - base] else if pos < |s| then s[pos] else 0
  {
    seq(if |s| < base + |d| then base + |d| else |s|,
        pos requires 0 <= pos => if base <= pos < base + |d| then d[pos - base] else if pos < |s| then s[pos] else 0)
  }

  /** Inode i with a new size and block count. */
  ghost function Resized(fs: Fs, i: nat, size: int, nblocks: int): Fs
    requires i < |fs.inodes|
  {
    fs.(inodes := fs.inodes[i := fs.inodes[i].(size := size, nblocks := nblocks)])
  }

  lemma ResizedSame(fs: Fs, i: nat, size: int, nblocks: int)
    requires Inv(fs) && i < |fs.inodes|
    ensures var gs := Resized(fs, i, size, nblocks);
      Inv(gs) && forall i': nat, pos: nat {:trigger FileByte(gs, i', pos)} :: i' < |fs.inodes| ==>
      FileByte(gs, i', pos) == FileByte(fs, i', pos)
  {
    var gs := Resized(fs, i, size, nblocks);
    forall q {:trigger Slot(gs, q)} | Valid(fs, q) ensures Slot(gs, q) == Slot(fs, q) {}
    forall i': nat, l {:trigger BlockOf(gs, i', l)} | i' < |fs.inodes|
      ensures BlockOf(gs, i', l) == BlockOf(fs, i', l)
    {
      SameSlotsSameBlock(fs, gs, i', l);
    }
  }

  /** The size and block count ext3_write leaves. */
  ghost function SizeAfter(size: int, last: int): int { if last > size then last else size }

  /** A state that differs from fs as Written says, with the size brought up to date, holds the flat write. */
  lemma FlatFile(fs: Fs, gs: Fs, i: nat, base: nat, n: nat, buf: Bytes)
    requires Inv(fs) && i < |fs.inodes| && n <= |buf| && TailZero(fs, i) && fs.inodes[i].size >= 0
    requires Inv(gs) && |gs.inodes| == |fs.inodes| && gs.inodes[i].size == SizeAfter(fs.inodes[i].size, base + n)
    requires forall i': nat, pos: nat {:trigger FileByte(gs, i', pos)} :: i' < |fs.inodes| ==>
         FileByte(gs, i', pos) == if i' == i && base <= pos < base + n then buf[pos - base] else FileByte(fs, i', pos)
    ensures Contents(gs, i) == FlatWrite(Contents(fs, i), base, buf[..n]) && TailZero(gs, i)
  {
    var s, r := Contents(gs, i), FlatWrite(Contents(fs, i), base, buf[..n]);
    forall pos | 0 <= pos < |r| ensures s[pos] == r[pos] {
      assert s[pos] == FileByte(gs, i, pos);
      if |Contents(fs, i)| <= pos { assert FileByte(fs, i, pos) == 0 || base <= pos < base + n; }
    }
  }

  /** How many of the left bytes fit in the block position pos falls in. */
  function ChunkSize(pos: nat, left: nat): (n: nat)
    ensures n <= left
  {
    if BLOCK - pos % BLOCK > left then left else BLOCK - pos % BLOCK
  }

  /** In the 32-bit range every block is within reach, and a chunk stays inside its block. */
  lemma ChunkFacts(base: nat, total: nat, count: nat)
    requires total < count
    ensures var pos := base + total; var n := ChunkSize(pos, count - total); var l := pos / BLOCK;
      0 < n <= count - total && pos % BLOCK + n <= BLOCK && pos == l * BLOCK + pos % BLOCK &&
      l < Touched(base, count) &&
      (n < count - total ==> (pos + n) / BLOCK == l + 1) && (pos < WORD ==> l <= SECOND_STAGE)
  {}

  /** Where position pos falls, and the part of the remaining bytes that goes there. */
  method Split(pos: nat, rest: Bytes) returns (lblock: nat, at: nat, d: Bytes)
    requires |rest| > 0
    ensures lblock == pos / BLOCK && at == pos % BLOCK && d == rest[..ChunkSize(pos, |rest|)]
  {
    lblock, at := pos / BLOCK, pos % BLOCK;
    var chunk := BLOCK - at;
    if chunk > |rest| { chunk := |rest|; }
    d := rest[..chunk];
  }

  lemma TurnDone(fs: Fs, es: Fs, es': Fs, i: nat, base: nat, total: nat, buf: Bytes, l: nat, d: Bytes)
    requires Inv(fs) && i < |fs.inodes| && total < |buf| && Written(fs, es, i, base, total, buf)
    requires Room(es, i, l, Touched(base, |buf|)) && l == (base + total) / BLOCK && l <= SECOND_STAGE &&
      Valid(es, PathOf(i, l))
    requires d == buf[total..][..ChunkSize(base + total, |buf| - total)]
    requires var at := (base + total) % BLOCK; at + |d| <= BLOCK && ChunkDone(es, es', i, l, at, d)
    ensures 0 < |d| == ChunkSize(base + total, |buf| - total) && total + |d| <= |buf|
    ensures Written(fs, es', i, base, total + |d|, buf) && Room(es', i, l + 1, Touched(base, |buf|))
  {
    ChunkFacts(base, total, |buf|);
    var at := (base + total) % BLOCK;
    RoomStep(es, es', i, l, Touched(base, |buf|), at, d);
    WrittenStep(fs, es, es', i, base, total, buf, l, at, d);
  }

  lemma TurnReady(es: Fs, i: nat, base: nat, total: nat, buf: Bytes, l: nat, d: Bytes)
    requires Inv(es) && i < |es.inodes| && total < |buf| && base + |buf| < WORD && l == (base + total) / BLOCK
    requires Room(es, i, l, Touched(base, |buf|)) && d == buf[total..][..ChunkSize(base + total, |buf| - total)]
    ensures (base + total) % BLOCK + |d| <= BLOCK && l < Touched(base, |buf|) && l <= SECOND_STAGE &&
      Valid(es, PathOf(i, l))
    ensures FreeCount(es.used) >= Need(es, PathOf(i, l))
  {
    ChunkFacts(base, total, |buf|);
    PathOfValid(es, i, l);
  }

  /** One turn: the chunk for block l, which position base + total falls in. */
  method WriteTurn(e: Ext3, i: nat, base: nat, total: nat, buf: Bytes, ghost l: nat, ghost fs: Fs, ghost es: Fs)
    returns (ok: bool, chunk: nat, ghost es': Fs)
    requires Inv(fs) && i < |fs.inodes| && total < |buf| && base + |buf| < WORD &&
      Written(fs, es, i, base, total, buf) && l == (base + total) / BLOCK
    requires Pending(e.View(), e.dirty, es, i, l, l, Touched(base, |buf|)) && Room(es, i, l, Touched(base, |buf|))
    modifies e`inodes, e`dirty, e`superFree, e`groupFree, e.bitmap
    ensures e.Drift() == old(e.Drift()) && ok
    ensures 0 < chunk == ChunkSize(base + total, |buf| - total) <= |buf| - total &&
      Written(fs, es', i, base, total + chunk, buf)
    ensures Pending(e.View(), e.dirty, es', i, l + 1, l + 1, Touched(base, |buf|)) &&
      Room(es', i, l + 1, Touched(base, |buf|))
  {
    InRange(base, total);
    var lblock, at, d := Split(Position(base, total), buf[total..]);
    TurnReady(es, i, base, total, buf, l, d);
    chunk := |d|;
    ok, es' := WriteChunk(e, i, lblock, at, d, es, Touched(base, |buf|));
    TurnDone(fs, es, es', i, base, total, buf, l, d);
  }

  /** The loop invariant: total bytes are written, counting what is pending, and there is room for the rest from block
      l on. */
  ghost predicate InLoop(fs: Fs, now: Fs, dirty: seq<Dirty>, es: Fs, i: nat, base: nat, total: nat, buf: Bytes, l: nat)
  {
    && Inv(fs) && i < |fs.inodes| && total <= |buf| && Pending(now, dirty, es, i, l, l, Touched(base, |buf|))
    && Written(fs, es, i, base, total, buf)
    && (total < |buf| ==> l == (base + total) / BLOCK && Room(es, i, l, Touched(base, |buf|)))
  }

  lemma StayInLoop(fs: Fs, now: Fs, dirty: seq<Dirty>, es: Fs, i: nat, base: nat, total: nat, chunk: nat, buf: Bytes,
                   l: nat)
    requires Inv(fs) && i < |fs.inodes| && total < |buf| && l == (base + total) / BLOCK
    requires chunk == ChunkSize(base + total, |buf| - total) && Written(fs, es, i, base, total + chunk, buf)
    requires Pending(now, dirty, es, i, l + 1, l + 1, Touched(base, |buf|)) && Room(es, i, l + 1, Touched(base, |buf|))
    ensures InLoop(fs, now, dirty, es, i, base, total + chunk, buf, l + 1)
  {
    ChunkFacts(base, total, |buf|);
  }

  method WriteNext(e: Ext3, i: nat, base: nat, total: nat, buf: Bytes, ghost l: nat, ghost fs: Fs, ghost es: Fs)
    returns (ok: bool, total': nat, ghost es': Fs)
    requires InLoop(fs, e.View(), e.dirty, es, i, base, total, buf, l) && total < |buf| && base + |buf| < WORD
    modifies e`inodes, e`dirty, e`superFree, e`groupFree, e.bitmap
    ensures e.Drift() == old(e.Drift()) && ok && total < total'
    ensures InLoop(fs, e.View(), e.dirty, es', i, base, total', buf, l + 1)
  {
    var chunk;
    ok, chunk, es' := WriteTurn(e, i, base, total, buf, l, fs, es);
    total' := total + chunk;
    StayInLoop(fs, e.View(), e.dirty, es', i, base, total, chunk, buf, l);
  }

  /** The loop of ext3_write. */
  method WriteAll(e: Ext3, i: nat, base: nat, buf: Bytes) returns (total: nat, ghost es: Fs)
    requires Inv(e.View()) && i < |e.inodes| && e.dirty == [] && base + |buf| < WORD &&
      Room(e.View(), i, base / BLOCK, Touched(base, |buf|))
    modifies e`inodes, e`dirty, e`superFree, e`groupFree, e.bitmap
    ensures total == |buf|
    ensures Written(old(e.View()), es, i, base, total, buf) && e.Drift() == old(e.Drift())
    ensures Writable(e.dirty, |e.disk|) && es == Overlay(e.View(), e.dirty) && |e.inodes| == |es.inodes|
  {
    ghost var fs := e.View();
    total, es := 0, fs;
    ghost var l: nat := base / BLOCK;
    PendingStart(fs, i, l, Touched(base, |buf|));
    while total < |buf|
      invariant InLoop(fs, e.View(), e.dirty, es, i, base, total, buf, l)
      invariant e.Drift() == old(e.Drift())
    {
      var ok;
      ok, total, es := WriteNext(e, i, base, total, buf, l, fs, es);
      l := l + 1;
      if !ok { break; }
    }
  }

  /** File i has had d written at base, every other file is as it was. */
  ghost predicate FlatWritten(fs: Fs, gs: Fs, i: nat, base: nat, d: Bytes)
    requires Inv(fs) && i < |fs.inodes| && (forall i' :: 0 <= i' < |fs.inodes| ==> fs.inodes[i'].size >= 0)
  {
    && Inv(gs) && |gs.inodes| == |fs.inodes| && gs.inodes[i].size == SizeAfter(fs.inodes[i].size, base + |d|)
    && (TailZero(fs, i) ==> Contents(gs, i) == FlatWrite(Contents(fs, i), base, d) && TailZero(gs, i))
    && forall i': nat :: i' < |fs.inodes| && i' != i ==>
         gs.inodes[i'].size == fs.inodes[i'].size && SameFile(fs, gs, i')
  }

  ghost predicate SameFile(fs: Fs, gs: Fs, i: nat)
    requires Inv(fs) && Inv(gs) && i < |fs.inodes| && i < |gs.inodes| && 0 <= fs.inodes[i].size == gs.inodes[i].size
  {
    Contents(gs, i) == Contents(fs, i) && (TailZero(fs, i) ==> TailZero(gs, i))
  }

  ghost predicate SizesFit(fs: Fs) { forall i :: 0 <= i < |fs.inodes| ==> 0 <= fs.inodes[i].size < WORD }

  /** ext3_write, from the position the file is at, or its end when appending. The demands: the write ends below 2^32,
      there are free blocks for it, and no two of its missing blocks write the same table. */
  method Write(e: Ext3, i: nat, fpos: nat, append: bool, buf: Bytes) returns (n: int, fpos': nat)
    requires Inv(e.View()) && i < |e.inodes| && e.dirty == [] && SizesFit(e.View())
    requires var base := if append then e.inodes[i].size else fpos;
      base + |buf| < WORD && Room(e.View(), i, base / BLOCK, Touched(base, |buf|))
    modifies e`inodes, e`disk, e`dirty, e`superFree, e`groupFree, e.bitmap
    ensures var base := if append then old(e.inodes[i].size) else fpos;
      n == Signed(|buf|) && fpos' == base + |buf| && FlatWritten(old(e.View()), e.View(), i, base, buf)
    ensures e.dirty == [] && e.Drift() == old(e.Drift()) && SizesFit(e.View())
  {
    ghost var fs := e.View();
    var base := if append then e.inodes[i].size else fpos;
    ghost var es;
    var total;
    total, es := WriteAll(e, i, base, buf);
    InRange(base, total);
    Finish(e, i, Position(base, total), es);
    fpos' := Position(base, total);
    n := Signed(total);
    AllFiles(fs, es, e.View(), i, base, total, buf);
    assert buf[..total] == buf;
  }

  lemma AllFiles(fs: Fs, es: Fs, gs: Fs, i: nat, base: nat, n: nat, buf: Bytes)
    requires Inv(fs) && i < |fs.inodes| && n <= |buf| &&
      (forall i' :: 0 <= i' < |fs.inodes| ==> fs.inodes[i'].size >= 0)
    requires Written(fs, es, i, base, n, buf) && Finished(es, gs, i, base + n)
    ensures FlatWritten(fs, gs, i, base, buf[..n])
  {
    if TailZero(fs, i) { FlatFile(fs, gs, i, base, n, buf); }
    forall i': nat | i' < |fs.inodes| && i' != i
      ensures gs.inodes[i'].size == fs.inodes[i'].size && SameFile(fs, gs, i')
    {
      OtherFile(fs, es, gs, i, base, n, buf, i');
    }
  }

  lemma OtherFile(fs: Fs, es: Fs, gs: Fs, i: nat, base: nat, n: nat, buf: Bytes, i': nat)
    requires Inv(fs) && i < |fs.inodes| && n <= |buf| &&
      (forall i' :: 0 <= i' < |fs.inodes| ==> fs.inodes[i'].size >= 0)
    requires Written(fs, es, i, base, n, buf) && Finished(es, gs, i, base + n) && i' < |fs.inodes| && i' != i
    ensures gs.inodes[i'].size == fs.inodes[i'].size && SameFile(fs, gs, i')
  {
    assert gs.inodes[i'] == es.inodes[i'];
    var s, r := Contents(gs, i'), Contents(fs, i');
    forall pos | 0 <= pos < |r| ensures s[pos] == r[pos] {
      assert FileByte(gs, i', pos) == FileByte(es, i', pos);
    }
    assert s == r;
  }

  /** The state es with the size of inode i brought up to last. */
  ghost predicate Finished(es: Fs, gs: Fs, i: nat, last: nat)
    requires Inv(es) && i < |es.inodes|
  {
    && Inv(gs) && |gs.inodes| == |es.inodes|
    && gs.inodes[i].size == SizeAfter(es.inodes[i].size, last)
    && gs.inodes[i].nblocks ==
       (if last > es.inodes[i].size then (last + BLOCK - 1) % WORD / BLOCK else es.inodes[i].nblocks)
    && (forall i' :: 0 <= i' < |gs.inodes| && i' != i ==> gs.inodes[i'] == es.inodes[i'])
    && (forall i': nat, pos: nat {:trigger FileByte(gs, i', pos)} :: i' < |es.inodes| ==>
         FileByte(gs, i', pos) == FileByte(es, i', pos))
  }

  /** The size update and flush at the end of ext3_write. */
  method SizeAndFlush(e: Ext3, i: nat, last: nat)
    requires i < |e.inodes| && Writable(e.dirty, |e.disk|)
    modifies e`inodes, e`disk, e`dirty
    ensures e.dirty == [] && e.Drift() == old(e.Drift())
    ensures |e.inodes| == |old(e.inodes)| && e.inodes[i].size == SizeAfter(old(e.inodes[i].size), last)
    ensures e.inodes[i].nblocks ==
      if last > old(e.inodes[i].size) then (last + BLOCK - 1) % WORD / BLOCK else old(e.inodes[i].nblocks)
    ensures e.View() == Resized(old(Overlay(e.View(), e.dirty)), i, e.inodes[i].size, e.inodes[i].nblocks)
  {
    if last > e.inodes[i].size {
      e.inodes := e.inodes[i := e.inodes[i].(size := last, nblocks := (last + BLOCK - 1) % WORD / BLOCK)];
    }
    e.Flush();
  }

  method Finish(e: Ext3, i: nat, last: nat, ghost es: Fs)
    requires i < |e.inodes| && Writable(e.dirty, |e.disk|) && es == Overlay(e.View(), e.dirty) && Inv(es)
    modifies e`inodes, e`disk, e`dirty
    ensures Finished(es, e.View(), i, last) && e.dirty == [] && e.Drift() == old(e.Drift())
  {
    SizeAndFlush(e, i, last);
    ResizedSame(es, i, e.inodes[i].size, e.inodes[i].nblocks);
  }

  // ---- past the end of the range ----

  /** A file of 32-bit size is the flat write only if the write ends below 2^32, whatever was done to the disk. */
  lemma FlatOnlyIfFits(fs: Fs, gs: Fs, i: nat, base: nat, buf: Bytes)
    requires Inv(fs) && Inv(gs) && i < |fs.inodes| && i < |gs.inodes| && SizesFit(fs) && SizesFit(gs)
    requires Contents(gs, i) == FlatWrite(Contents(fs, i), base, buf)
    ensures base + |buf| < WORD
  {
    assert |FlatWrite(Contents(fs, i), base, buf)| >= base + |buf|;
  }
}
