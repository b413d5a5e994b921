/** ext3_read of ext3fs.c, and single block acquisitions followed by a flush. */
module Ext3Read {
  import opened Digits
  import opened Ext3Map
  import opened Ext3Ensure
  import opened Ext3Blocks
  import opened Ext3Bytes
  import opened Ext3Pending
  import opened Ext3Files

  /** data is what file i holds from pos on. */
  ghost predicate FileHas(fs: Fs, i: nat, pos: nat, data: Bytes)
    requires Inv(fs) && i < |fs.inodes|
  {
    forall p :: pos <= p < pos + |data| ==> data[p - pos] == FileByte(fs, i, p)
  }

  lemma FileHasConcat(fs: Fs, i: nat, pos: nat, a: Bytes, pos': nat, b: Bytes)
    requires Inv(fs) && i < |fs.inodes| && FileHas(fs, i, pos, a) && pos' == pos + |a| && FileHas(fs, i, pos', b)
    ensures FileHas(fs, i, pos, a + b)
  {
    var c := a + b;
    forall p | pos <= p < pos + |c| ensures c[p - pos] == FileByte(fs, i, p) {
      assert c[p - pos] == if p < pos' then a[p - pos] else b[p - pos'];
    }
  }

  /** One turn of the loop in ext3_read: the bytes of block pos / BLOCK from pos on. */
  method ReadChunk(e: Ext3, i: nat, pos: nat, chunk: nat) returns (d: Bytes)
    requires Inv(e.View()) && i < |e.inodes| && pos % BLOCK + chunk <= BLOCK
    ensures |d| == chunk && FileHas(e.View(), i, pos, d)
  {
    ghost var fs := e.View();
    var lblock, at := pos / BLOCK, pos % BLOCK;
    InvFindable(fs, i, lblock);
    var b := e.GetBlock(i, lblock);
    var block := ZeroBytes();
    if b != 0 {
      PathInDisk(fs, i, lblock);
      block := ToBytes(e.disk[b]);
    }
    d := block[at..at + chunk];
    ChunkHas(fs, i, pos, lblock, at, block, chunk, d);
  }

  lemma PathInDisk(fs: Fs, i: nat, l: int)
    requires Inv(fs) && i < |fs.inodes| && BlockOf(fs, i, l) != 0
    ensures 0 < BlockOf(fs, i, l) < |fs.disk| && |fs.disk[BlockOf(fs, i, l)]| == PTRS
  {
    PathOfValid(fs, i, l);
    assert BlockOf(fs, i, l) == Slot(fs, PathOf(i, l));
  }

  lemma SameBlock(pos: nat, l: nat, at: nat, p: nat, k: nat)
    requires l == pos / BLOCK && at == pos % BLOCK && p == pos + k && at + k < BLOCK
    ensures p / BLOCK == l && p % BLOCK == at + k
  {}

  lemma ChunkHas(fs: Fs, i: nat, pos: nat, l: nat, at: nat, block: Bytes, chunk: nat, d: Bytes)
    requires Inv(fs) && i < |fs.inodes| && l == pos / BLOCK && at == pos % BLOCK && block == Data(fs, i, l)
    requires at + chunk <= BLOCK && d == block[at..at + chunk]
    ensures FileHas(fs, i, pos, d)
  {
    forall p | pos <= p < pos + |d| ensures d[p - pos] == FileByte(fs, i, p) {
      var k := p - pos;
      SameBlock(pos, l, at, p, k);
      assert d[k] == block[at + k];
    }
  }

  /** How much of the left bytes to read from the block that pos falls in. */
  method ReadSize(pos: nat, left: nat) returns (n: nat)
    requires left > 0
    ensures 0 < n <= left && pos % BLOCK + n <= BLOCK
  {
    n := BLOCK - pos % BLOCK;
    if n > left { n := left; }
  }

  /** One turn, with what the turns before it read. */
  method ReadTurn(e: Ext3, i: nat, fpos: nat, left: nat, data: Bytes) returns (data': Bytes)
    requires Inv(e.View()) && i < |e.inodes| && |data| < left && FileHas(e.View(), i, fpos, data)
    ensures |data| < |data'| <= left && FileHas(e.View(), i, fpos, data')
  {
    var pos := fpos + |data|;
    var n := ReadSize(pos, left - |data|);
    var d := ReadChunk(e, i, pos, n);
    FileHasConcat(e.View(), i, fpos, data, pos, d);
    data' := data + d;
  }

  /** The loop of ext3_read: left bytes from fpos on, a block at a time. */
  method ReadAll(e: Ext3, i: nat, fpos: nat, left: nat) returns (data: Bytes)
    requires Inv(e.View()) && i < |e.inodes|
    ensures |data| == left && FileHas(e.View(), i, fpos, data)
  {
    data := [];
    while |data| < left
      invariant |data| <= left && FileHas(e.View(), i, fpos, data)
    {
      data := ReadTurn(e, i, fpos, left, data);
    }
  }

  /** How many bytes a read of count gets. */
  ghost function Readable(size: int, fpos: int, count: int): int
  {
    if fpos >= size then 0 else if count > size - fpos then size - fpos else count
  }

  /** ext3_read: the matching slice of the flat file. */
  method Read(e: Ext3, i: nat, fpos: nat, count: nat) returns (data: Bytes, fpos': nat)
    requires Inv(e.View()) && i < |e.inodes| && 0 <= e.inodes[i].size < WORD
    ensures |data| == Readable(e.inodes[i].size, fpos, count) && fpos' == fpos + |data|
    ensures fpos < e.inodes[i].size ==> data == Contents(e.View(), i)[fpos..fpos + |data|]
  {
    if fpos >= e.inodes[i].size { return [], fpos; }
    var n := count;
    if n > e.inodes[i].size - fpos { n := e.inodes[i].size - fpos; }
    data := ReadAll(e, i, fpos, n);
    fpos' := fpos + n;
    assert data == Contents(e.View(), i)[fpos..fpos + |data|];
  }

  // ---- one acquisition, then a flush ----

  /** Block l of inode i is mapped in gs, and every other block of every inode as in fs. */
  ghost predicate OnlyMaps(fs: Fs, gs: Fs, i: nat, l: nat)
    requires Inv(fs) && i < |fs.inodes|
  {
    && Inv(gs) && |gs.inodes| == |fs.inodes| && BlockOf(gs, i, l) != 0
    && (BlockOf(fs, i, l) != 0 ==> BlockOf(gs, i, l) == BlockOf(fs, i, l))
    && forall i': nat, l' {:trigger BlockOf(gs, i', l')} :: i' < |fs.inodes| && (i', l') != (i, l as int) ==>
         BlockOf(gs, i', l') == BlockOf(fs, i', l')
  }

  lemma AcquireOnlyMaps(fs: Fs, i: nat, l: nat)
    requires Inv(fs) && i < |fs.inodes| && l <= SECOND_STAGE && Valid(fs, PathOf(i, l)) &&
      FreeCount(fs.used) >= Need(fs, PathOf(i, l))
    ensures OnlyMaps(fs, Acquire(fs, PathOf(i, l)), i, l)
  {
    var gs := Acquire(fs, PathOf(i, l));
    AcquireMapsOne(fs, i, l, i, l);
    forall i': nat, l' {:trigger BlockOf(gs, i', l')} | i' < |fs.inodes| && (i', l') != (i, l as int)
      ensures BlockOf(gs, i', l') == BlockOf(fs, i', l')
    {
      AcquireMapsOne(fs, i, l, i', l');
    }
  }

  /** ext3_inode_ensure_block followed by ext3_flush and a lookup. */
  method AcquireThenFlush(e: Ext3, i: nat, l: nat) returns (r: int, found: int)
    requires Inv(e.View()) && i < |e.inodes| && e.dirty == [] && l <= SECOND_STAGE
    requires Valid(e.View(), PathOf(i, l)) && FreeCount(e.Bits()) >= Need(e.View(), PathOf(i, l))
    modifies e`inodes, e`disk, e`dirty, e`superFree, e`groupFree, e.bitmap
    ensures OnlyMaps(old(e.View()), e.View(), i, l) && found == r == BlockOf(e.View(), i, l)
    ensures e.dirty == [] && e.Drift() == old(e.Drift())
  {
    ghost var x := EnsureThenFlush(e.View(), i, l);
    r := e.EnsureBlock(i, l);
    FlushHeld(e, x);
    found := e.GetBlock(i, l);
  }

  /** ext3_flush when the list holds what one call put there. */
  method FlushHeld(e: Ext3, ghost x: Outcome)
    requires e.Holds(x, []) && Writable(x.added, |e.disk|)
    modifies e`disk, e`dirty
    ensures e.View() == Fs(x.inodes, Flushed(old(e.disk), x.added), x.used) && e.dirty == [] &&
      e.Drift() == old(e.Drift())
  {
    NothingBefore(x.added);
    e.Flush();
  }

  lemma EnsureThenFlush(fs: Fs, i: nat, l: nat) returns (x: Outcome)
    requires Inv(fs) && i < |fs.inodes| && l <= SECOND_STAGE && Valid(fs, PathOf(i, l)) &&
      FreeCount(fs.used) >= Need(fs, PathOf(i, l))
    ensures HasInode(fs.inodes, fs.disk, i) && RunOk(fs.inodes, fs.used, fs.disk, PathOf(i, l))
    ensures x == Run(fs.inodes, fs.used, fs.disk, PathOf(i, l)) && Writable(x.added, |fs.disk|)
    ensures var gs := Fs(x.inodes, Flushed(fs.disk, x.added), x.used);
      OnlyMaps(fs, gs, i, l) && x.r == BlockOf(gs, i, l) && Findable(gs, i, l)
  {
    RunAcquires(fs, PathOf(i, l));
    AcquireRuns(fs, PathOf(i, l));
    AcquireOnlyMaps(fs, i, l);
    x := Run(fs.inodes, fs.used, fs.disk, PathOf(i, l));
    InvFindable(Acquire(fs, PathOf(i, l)), i, l);
  }

  lemma NothingBefore(added: seq<Dirty>)
    ensures added + [] == added
  {}
}
