/** What ext3_inode_ensure_block of ext3fs.c computes from the inodes, the bitmap and the disk it reads,
    and the acquisition this amounts to once the write-back list is flushed. */
module Ext3Ensure {
  import opened Ext3Map

  /** A block waiting to be written; the list of them is newest first. */
  datatype Dirty = Dirty(block: int, content: Words)

  ghost predicate Writable(dirty: seq<Dirty>, n: int)
  {
    forall k :: 0 <= k < |dirty| ==> 0 <= dirty[k].block < n && |dirty[k].content| == PTRS
  }

  /** The disk once the list is written out in list order. */
  ghost function Flushed(disk: seq<Words>, dirty: seq<Dirty>): (d: seq<Words>)
    requires Writable(dirty, |disk|)
    ensures |d| == |disk|
    decreases |dirty|
  {
    if dirty == [] then disk else Flushed(disk[dirty[0].block := dirty[0].content], dirty[1..])
  }

  lemma FlushedHead(disk: seq<Words>, d: Dirty, rest: seq<Dirty>)
    requires 0 <= d.block < |disk| && |d.content| == PTRS && Writable(rest, |disk|)
    ensures Writable([d] + rest, |disk|) && Flushed(disk, [d] + rest) == Flushed(disk[d.block := d.content], rest)
  {
    assert ([d] + rest)[1..] == rest;
  }

  /** The list entry for a table, if it was changed. */
  ghost function Change(block: int, content: Words, changed: bool): seq<Dirty>
  {
    if changed then [Dirty(block, content)] else []
  }

  lemma FlushedChange(disk: seq<Words>, block: int, content: Words, changed: bool, rest: seq<Dirty>)
    requires 0 <= block < |disk| && |content| == PTRS && (!changed ==> disk[block] == content) && Writable(rest, |disk|)
    ensures Writable(Change(block, content, changed) + rest, |disk|)
    ensures Flushed(disk, Change(block, content, changed) + rest) == Flushed(disk[block := content], rest)
  {
    if changed {
      FlushedHead(disk, Dirty(block, content), rest);
    } else {
      assert Change(block, content, changed) + rest == rest;
      assert disk[block := content] == disk;
    }
  }

  lemma SwapUpdate(disk: seq<Words>, lb: int, leaf: Words, leaf': Words, tb: int, table: Words)
    requires 0 <= lb < |disk| && 0 <= tb < |disk| && lb != tb
    ensures disk[lb := leaf][tb := table][lb := leaf'] == disk[lb := leaf'][tb := table]
  {}

  /** Leaf and table written, in that order, against the leaf as it was read. */
  lemma FlushedPair(disk: seq<Words>, tb: int, table: Words, tableDirty: bool, lb: int, leaf: Words, leaf': Words,
                    leafDirty: bool)
    requires 0 <= tb < |disk| && 0 <= lb < |disk| && |table| == PTRS && |leaf'| == PTRS && tb != lb
    requires (!tableDirty ==> disk[tb] == table) && (!leafDirty ==> disk[lb] == leaf')
    ensures var added := Change(lb, leaf', leafDirty) + (Change(tb, table, tableDirty) + []);
      Writable(added, |disk|) && Flushed(disk, added) == disk[lb := leaf][tb := table][lb := leaf']
  {
    var rest := Change(tb, table, tableDirty) + [];
    FlushedChange(disk[lb := leaf'], tb, table, tableDirty, []);
    FlushedChange(disk, lb, leaf', leafDirty, rest);
    SwapUpdate(disk, lb, leaf, leaf', tb, table);
  }

  /** Block b holds a pointer table. */
  ghost predicate TableBlock(fs: Fs, b: int)
    requires Shaped(fs)
  {
    exists q :: Valid(fs, q) && IsTable(q) && Slot(fs, q) == b != 0
  }

  ghost predicate OnlyTables(fs: Fs, dirty: seq<Dirty>)
    requires Shaped(fs)
  {
    forall k :: 0 <= k < |dirty| ==> TableBlock(fs, dirty[k].block)
  }

  /** Table t with entry e filled from the bitmap if it was empty, and the bitmap after. */
  ghost function Filled(t: Words, e: nat, used: seq<bool>): Words
    requires e < |t|
  {
    if t[e] == 0 then t[e := FirstFree(used)] else t
  }

  ghost function Taken(t: Words, e: nat, used: seq<bool>): seq<bool>
    requires e < |t|
  {
    if t[e] == 0 && FirstFree(used) < |used| then used[FirstFree(used) := true] else used
  }

  /** Filling a data slot rewrites one table. */
  lemma FillWord(fs: Fs, p: Path, t: int)
    requires Inv(fs) && Valid(fs, p) && (Slot(fs, p) == 0 ==> FreeCount(fs.used) > 0) && (p.Ind? || p.Leaf?)
    requires Valid(fs, Parent(p)) && t == Slot(fs, Parent(p)) && 0 < t < |fs.disk|
    ensures var gs := Fill(fs, p); var e := WordIndex(p);
      gs == Fs(fs.inodes, fs.disk[t := Filled(fs.disk[t], e, fs.used)], Taken(fs.disk[t], e, fs.used)) &&
      Shaped(gs) && Slot(gs, p) == Filled(fs.disk[t], e, fs.used)[e]
  {
    if Slot(fs, p) == 0 {
      FreeExists(fs.used);
    } else {
      assert fs.disk[t := fs.disk[t]] == fs.disk;
    }
  }

  /** Filling a leaf-table slot also zeroes the new leaf. */
  lemma FillTable(fs: Fs, p: Path, t: int)
    requires Inv(fs) && Valid(fs, p) && (Slot(fs, p) == 0 ==> FreeCount(fs.used) > 0) && p.Dind?
    requires Valid(fs, Parent(p)) && t == Slot(fs, Parent(p)) && 0 < t < |fs.disk|
    ensures var gs := Fill(fs, p); var e := WordIndex(p); var b := Filled(fs.disk[t], e, fs.used)[e];
      0 < b < |fs.disk| && b != t && Shaped(gs) && Slot(gs, p) == b &&
      gs == Fs(fs.inodes,
               fs.disk[b := if Slot(fs, p) == 0 then Zeros() else fs.disk[b]][t := Filled(fs.disk[t], e, fs.used)],
               Taken(fs.disk[t], e, fs.used))
  {
    assert fs.used[t];
    if Slot(fs, p) == 0 {
      FreeExists(fs.used);
    } else {
      assert Slot(fs, p) != Slot(fs, Parent(p));
      assert fs.disk[Slot(fs, p) := fs.disk[Slot(fs, p)]] == fs.disk;
      assert fs.disk[t := fs.disk[t]] == fs.disk;
    }
  }

  /** The table of slot p as read, and its filled form, give the whole acquisition of an indirect block. */
  lemma IndirectDone(fs: Fs, i: nat, e: nat, disk: seq<Words>, tb: int, table: Words, isNew: bool, changed: bool)
    requires Inv(fs) && Valid(fs, Ind(i, e)) && FreeCount(fs.used) >= Need(fs, Ind(i, e))
    requires Opened(Acquire(fs, Root(i, IND)), Root(i, IND), disk, tb, table, isNew)
    requires !changed ==> table[e] != 0
    ensures var hs := Acquire(fs, Root(i, IND)); var gs := Acquire(fs, Ind(i, e));
      var table' := Filled(table, e, hs.used);
      var added := Change(tb, table', isNew || changed) + [];
      Writable(added, |disk|) && gs == Fs(hs.inodes, Flushed(disk, added), Taken(table, e, hs.used)) &&
      Shaped(gs) && Valid(gs, Ind(i, e)) && Slot(gs, Ind(i, e)) == table'[e] && OnlyTables(gs, added) &&
      (table[e] == 0 ==> FreeCount(hs.used) > 0)
  {
    var hs := Acquire(fs, Root(i, IND));
    AcquireWorks(fs, Root(i, IND));
    ChainStep(fs, hs, Ind(i, e));
    FillWord(hs, Ind(i, e), tb);
    var table' := Filled(table, e, hs.used);
    FlushedChange(disk, tb, table', isNew || changed, []);
    assert disk[tb := table][tb := table'] == disk[tb := table'];
    assert Slot(Fill(hs, Ind(i, e)), Root(i, IND)) == tb;
  }

  /** Table block tb of slot p was read as table, against a disk that misses it if it is new. */
  ghost predicate Opened(hs: Fs, p: Path, disk: seq<Words>, tb: int, table: Words, isNew: bool)
  {
    && Shaped(hs) && Valid(hs, p) && tb == Slot(hs, p) && 0 < tb < |disk| && |table| == PTRS
    && hs.disk == disk[tb := table] && (!isNew ==> disk[tb] == table)
  }

  /** Leaf block lb of slot p was read as leaf, below the double-indirect table read as table. */
  ghost predicate OpenedLeaf(ls: Fs, p: Path, disk: seq<Words>, tb: int, table: Words, tableDirty: bool, lb: int,
                             leaf: Words, isNew: bool)
  {
    && Shaped(ls) && Valid(ls, p) && p.Dind? && lb == Slot(ls, p) && tb == Slot(ls, Parent(p)) && 0 < lb < |disk|
    && 0 < tb < |disk| && tb != lb
    && |table| == PTRS && |leaf| == PTRS && ls.disk == disk[lb := leaf][tb := table]
    && (!tableDirty ==> disk[tb] == table) && (!isNew ==> disk[lb] == leaf)
  }

  ghost function LeafBefore(disk: seq<Words>, lb: int, isNew: bool): Words
  {
    if !isNew && 0 <= lb < |disk| then disk[lb] else Zeros()
  }

  lemma LeafOpened(fs: Fs, i: nat, ti: nat, disk: seq<Words>, tb: int, table: Words, isNew: bool)
    requires Inv(fs) && Valid(fs, Dind(i, ti)) && FreeCount(fs.used) >= Need(fs, Dind(i, ti))
    requires Opened(Acquire(fs, Root(i, DIND)), Root(i, DIND), disk, tb, table, isNew)
    ensures var hs := Acquire(fs, Root(i, DIND)); var ls := Acquire(fs, Dind(i, ti));
      var table' := Filled(table, ti, hs.used);
      ls.inodes == hs.inodes && ls.used == Taken(table, ti, hs.used) && (table[ti] == 0 ==> FreeCount(hs.used) > 0) &&
      OpenedLeaf(ls, Dind(i, ti), disk, tb, table', isNew || table[ti] == 0,
                 table'[ti], LeafBefore(disk, table'[ti], table[ti] == 0), table[ti] == 0)
  {
    var hs := Acquire(fs, Root(i, DIND));
    AcquireWorks(fs, Root(i, DIND));
    ChainStep(fs, hs, Dind(i, ti));
    FillTable(hs, Dind(i, ti), tb);
    var table' := Filled(table, ti, hs.used);
    LeafDisk(disk, tb, table, table', table'[ti], LeafBefore(disk, table'[ti], table[ti] == 0));
  }

  lemma LeafDisk(disk: seq<Words>, tb: int, table: Words, table': Words, lb: int, leaf: Words)
    requires 0 <= tb < |disk| && 0 <= lb < |disk| && lb != tb
    ensures disk[tb := table][lb := leaf][tb := table'] == disk[lb := leaf][tb := table']
  {}

  lemma DoubleDone(fs: Fs, p: Path, disk: seq<Words>, tb: int, table: Words, tableDirty: bool, lb: int, leaf: Words,
                   isNew: bool, changed: bool)
    requires p.Leaf? && Inv(fs) && Valid(fs, p) && FreeCount(fs.used) >= Need(fs, p)
    requires OpenedLeaf(Acquire(fs, Parent(p)), Parent(p), disk, tb, table, tableDirty, lb, leaf, isNew)
    requires !changed ==> leaf[p.m] != 0
    ensures var ls := Acquire(fs, Parent(p)); var gs := Acquire(fs, p); var leaf' := Filled(leaf, p.m, ls.used);
      var added := Change(lb, leaf', isNew || changed) + (Change(tb, table, tableDirty) + []);
      Writable(added, |disk|) && gs == Fs(ls.inodes, Flushed(disk, added), Taken(leaf, p.m, ls.used)) &&
      Shaped(gs) && Valid(gs, p) && Slot(gs, p) == leaf'[p.m] && OnlyTables(gs, added) &&
      (leaf[p.m] == 0 ==> FreeCount(ls.used) > 0)
  {
    var ls := Acquire(fs, Parent(p));
    AcquireWorks(fs, Parent(p));
    ChainStep(fs, ls, p);
    FillWord(ls, p, lb);
    FlushedPair(disk, tb, table, tableDirty, lb, leaf, Filled(leaf, p.m, ls.used), isNew || changed);
    LeafTables(ls, p, tb, lb);
    PairOnlyTables(Fill(ls, p), tb, table, tableDirty, lb, Filled(leaf, p.m, ls.used), isNew || changed);
  }

  lemma PairOnlyTables(gs: Fs, tb: int, table: Words, tableDirty: bool, lb: int, leaf: Words, leafDirty: bool)
    requires Shaped(gs) && TableBlock(gs, tb) && TableBlock(gs, lb)
    ensures OnlyTables(gs, Change(lb, leaf, leafDirty) + (Change(tb, table, tableDirty) + []))
  {}

  lemma LeafTables(ls: Fs, p: Path, tb: int, lb: int)
    requires Inv(ls) && p.Leaf? && Valid(ls, p) && (Slot(ls, p) == 0 ==> FreeCount(ls.used) > 0)
    requires Valid(ls, Parent(p)) && lb == Slot(ls, Parent(p)) != 0 && tb == Slot(ls, Root(p.i, DIND)) != lb &&
      0 < tb < |ls.disk|
    ensures Shaped(Fill(ls, p)) && TableBlock(Fill(ls, p), tb) && TableBlock(Fill(ls, p), lb)
  {
    FillWord(ls, p, lb);
    var gs := Fill(ls, p);
    assert Slot(gs, Root(p.i, DIND)) == tb;
    assert Slot(gs, Parent(p)) == lb;
  }

  // ---- the computation ----

  /** The inodes and bitmap after a call, the tables it put on the list, and the block it returns. */
  datatype Outcome = Outcome(inodes: seq<Inode>, used: seq<bool>, added: seq<Dirty>, r: int)

  /** A table in memory: its block, its words, and whether it is new; with the inodes and bitmap by then. */
  datatype Table = Table(inodes: seq<Inode>, used: seq<bool>, tb: int, words: Words, isNew: bool)

  ghost function ReadTable(disk: seq<Words>, t: int): (w: Words)
    requires forall b :: 0 <= b < |disk| ==> |disk[b]| == PTRS
    ensures |w| == PTRS
  {
    if 0 <= t < |disk| then disk[t] else Zeros()
  }

  /** Inode i with slot k set to b. */
  ghost function Pointed(inodes: seq<Inode>, i: nat, k: nat, b: int): seq<Inode>
    requires i < |inodes| && k < |inodes[i].block|
  {
    inodes[i := inodes[i].(block := inodes[i].block[k := b])]
  }

  ghost function Grab(used: seq<bool>): seq<bool>
  {
    if FirstFree(used) < |used| then used[FirstFree(used) := true] else used
  }

  /** Inode i, and tables of the right size. */
  ghost predicate HasInode(inodes: seq<Inode>, disk: seq<Words>, i: nat)
  {
    i < |inodes| && |inodes[i].block| == 15 && forall b :: 0 <= b < |disk| ==> |disk[b]| == PTRS
  }

  ghost function OpenTable(inodes: seq<Inode>, used: seq<bool>, disk: seq<Words>, i: nat, k: nat): (t: Table)
    requires HasInode(inodes, disk, i) && k <= DIND
    ensures |t.words| == PTRS
  {
    var tb := inodes[i].block[k];
    if tb == 0 then Table(Pointed(inodes, i, k, FirstFree(used)), Grab(used), FirstFree(used), Zeros(), true)
    else Table(inodes, used, tb, ReadTable(disk, tb), false)
  }

  ghost function RunDirect(inodes: seq<Inode>, used: seq<bool>, disk: seq<Words>, i: nat, l: nat): Outcome
    requires HasInode(inodes, disk, i) && l <= ZERO_STAGE
  {
    var b := inodes[i].block[l];
    if b == 0 then Outcome(Pointed(inodes, i, l, FirstFree(used)), Grab(used), [], FirstFree(used))
    else Outcome(inodes, used, [], b)
  }

  ghost function RunIndirect(inodes: seq<Inode>, used: seq<bool>, disk: seq<Words>, i: nat, e: nat): Outcome
    requires HasInode(inodes, disk, i) && e < PTRS
  {
    var t := OpenTable(inodes, used, disk, i, IND);
    var words := Filled(t.words, e, t.used);
    Outcome(t.inodes, Taken(t.words, e, t.used), Change(t.tb, words, t.isNew || t.words[e] == 0) + [], words[e])
  }

  /** Entry ti of the double-indirect table filled, and the leaf it leads to. */
  ghost function OpenLeaf(inodes: seq<Inode>, used: seq<bool>, disk: seq<Words>, i: nat, ti: nat): (t: Table)
    requires HasInode(inodes, disk, i) && ti < PTRS
    ensures |t.words| == PTRS
  {
    var t := OpenTable(inodes, used, disk, i, DIND);
    var lb := Filled(t.words, ti, t.used)[ti];
    Table(t.inodes, Taken(t.words, ti, t.used), lb, if t.words[ti] == 0 then Zeros() else ReadTable(disk, lb),
    t.words[ti] == 0)
  }

  ghost function RunDouble(inodes: seq<Inode>, used: seq<bool>, disk: seq<Words>, i: nat, ti: nat, li: nat): Outcome
    requires HasInode(inodes, disk, i) && ti < PTRS && li < PTRS
  {
    var t := OpenTable(inodes, used, disk, i, DIND);
    var f := OpenLeaf(inodes, used, disk, i, ti);
    var leaf := Filled(f.words, li, f.used);
    Outcome(f.inodes, Taken(f.words, li, f.used),
      Change(f.tb, leaf, f.isNew ||
      f.words[li] == 0) + (Change(t.tb, Filled(t.words, ti, t.used), t.isNew || f.isNew) + []), leaf[li])
  }

  ghost function Run(inodes: seq<Inode>, used: seq<bool>, disk: seq<Words>, p: Path): Outcome
    requires HasInode(inodes, disk, p.i) && Reachable(p)
  {
    match p
    case Root(i, k) => RunDirect(inodes, used, disk, i, k)
    case Ind(i, j) => RunIndirect(inodes, used, disk, i, j)
    case Leaf(i, j, m) => RunDouble(inodes, used, disk, i, j, m)
  }

  /** The slots of logical blocks. */
  ghost predicate Reachable(p: Path)
  {
    match p
    case Root(i, k) => k <= ZERO_STAGE
    case Ind(i, j) => j < PTRS
    case Dind(i, j) => false
    case Leaf(i, j, m) => j < PTRS && m < PTRS
  }

  // ---- when the disk is up to date ----

  lemma TableOpened(fs: Fs, i: nat, k: nat)
    requires Inv(fs) && Valid(fs, Root(i, k)) && (k == IND || k == DIND) && FreeCount(fs.used) >= Need(fs, Root(i, k))
    ensures HasInode(fs.inodes, fs.disk, i)
    ensures var hs := Acquire(fs, Root(i, k)); var t := OpenTable(fs.inodes, fs.used, fs.disk, i, k);
      t.inodes == hs.inodes && t.used == hs.used && Opened(hs, Root(i, k), fs.disk, t.tb, t.words, t.isNew)
  {
    var tb := fs.inodes[i].block[k];
    assert tb == Slot(fs, Root(i, k));
    if tb == 0 {
      FreeExists(fs.used);
    } else {
      assert fs.disk[tb := fs.disk[tb]] == fs.disk;
    }
  }

  /** The outcome amounts to gs: its inodes and bitmap, and its disk once the tables are written. */
  ghost predicate Amounts(x: Outcome, disk: seq<Words>, gs: Fs, p: Path)
  {
    && Writable(x.added, |disk|) && gs == Fs(x.inodes, Flushed(disk, x.added), x.used) && Shaped(gs) && Valid(gs, p)
    && Slot(gs, p) == x.r
    && OnlyTables(gs, x.added)
  }

  lemma RunAcquires(fs: Fs, p: Path)
    requires Inv(fs) && Reachable(p) && Valid(fs, p) && FreeCount(fs.used) >= Need(fs, p)
    ensures HasInode(fs.inodes, fs.disk, p.i) &&
      Amounts(Run(fs.inodes, fs.used, fs.disk, p), fs.disk, Acquire(fs, p), p)
  {
    match p
    case Root(i, k) =>
      if Slot(fs, p) == 0 { FreeExists(fs.used); }
    case Ind(i, j) =>
      TableOpened(fs, i, IND);
      var t := OpenTable(fs.inodes, fs.used, fs.disk, i, IND);
      IndirectDone(fs, i, j, fs.disk, t.tb, t.words, t.isNew, t.words[j] == 0);
    case Leaf(i, j, m) => RunDoubleAcquires(fs, i, j, m);
  }

  lemma RunDoubleAcquires(fs: Fs, i: nat, j: nat, m: nat)
    requires var p := Leaf(i, j, m); Inv(fs) && Valid(fs, p) && FreeCount(fs.used) >= Need(fs, p)
    ensures HasInode(fs.inodes, fs.disk, i)
    ensures Amounts(RunDouble(fs.inodes, fs.used, fs.disk, i, j, m), fs.disk, Acquire(fs, Leaf(i, j, m)), Leaf(i, j, m))
  {
    TableOpened(fs, i, DIND);
    var t := OpenTable(fs.inodes, fs.used, fs.disk, i, DIND);
    LeafOpened(fs, i, j, fs.disk, t.tb, t.words, t.isNew);
    var words, isNew := Filled(t.words, j, t.used), t.words[j] == 0;
    var leaf := if isNew then Zeros() else ReadTable(fs.disk, words[j]);
    DoubleDone(fs, Leaf(i, j, m), fs.disk, t.tb, words, t.isNew || isNew, words[j], leaf, isNew, leaf[m] == 0);
  }

  /** The table at slot r is written when slot p is acquired: it holds an empty slot on the way to p. */
  ghost predicate Changes(fs: Fs, p: Path, r: Path)
    requires Shaped(fs) && Valid(fs, p)
    decreases Depth(p)
  {
    !p.Root? && ((r == Parent(p) && Slot(fs, p) == 0) || Changes(fs, Parent(p), r))
  }

  /** Block b is a table that acquiring p writes. */
  ghost predicate Changed(fs: Fs, gs: Fs, p: Path, b: int)
    requires Shaped(fs) && Valid(fs, p) && Shaped(gs)
  {
    exists r :: Changes(fs, p, r) && Valid(gs, r) && IsTable(r) && Slot(gs, r) == b
  }

  lemma RunChanges(fs: Fs, p: Path)
    requires Inv(fs) && Reachable(p) && Valid(fs, p) && FreeCount(fs.used) >= Need(fs, p)
    ensures HasInode(fs.inodes, fs.disk, p.i) && Inv(Acquire(fs, p))
    ensures var x := Run(fs.inodes, fs.used, fs.disk, p);
      forall k :: 0 <= k < |x.added| ==> Changed(fs, Acquire(fs, p), p, x.added[k].block)
  {
    AcquireWorks(fs, p);
    match p
    case Root(i, k) =>
    case Ind(i, j) => RunIndirectChanges(fs, i, j);
    case Leaf(i, j, m) => RunDoubleChanges(fs, i, j, m);
  }

  lemma RunIndirectChanges(fs: Fs, i: nat, j: nat)
    requires var p := Ind(i, j); Inv(fs) && Valid(fs, p) && FreeCount(fs.used) >= Need(fs, p)
    requires Inv(Acquire(fs, Ind(i, j)))
    ensures HasInode(fs.inodes, fs.disk, i)
    ensures var x := RunIndirect(fs.inodes, fs.used, fs.disk, i, j);
      forall k :: 0 <= k < |x.added| ==> Changed(fs, Acquire(fs, Ind(i, j)), Ind(i, j), x.added[k].block)
  {
    var p, gs := Ind(i, j), Acquire(fs, Ind(i, j));
    RunAcquires(fs, p);
    var t := OpenTable(fs.inodes, fs.used, fs.disk, i, IND);
    assert Slot(gs, Root(i, IND)) == t.tb;
    assert Slot(fs, Root(i, IND)) == fs.inodes[i].block[IND];
    if t.isNew || t.words[j] == 0 { assert Changes(fs, p, Root(i, IND)); }
  }

  /** The two tables on the way to a leaf slot, as they stand afterwards. */
  lemma DoubleSlots(fs: Fs, i: nat, j: nat, m: nat)
    requires var p := Leaf(i, j, m); Inv(fs) && Valid(fs, p) && FreeCount(fs.used) >= Need(fs, p)
    ensures HasInode(fs.inodes, fs.disk, i) && Inv(Acquire(fs, Leaf(i, j, m))) &&
      Valid(Acquire(fs, Leaf(i, j, m)), Leaf(i, j, m))
    ensures var gs := Acquire(fs, Leaf(i, j, m)); var t := OpenTable(fs.inodes, fs.used, fs.disk, i, DIND);
      Slot(gs, Root(i, DIND)) == t.tb && Slot(gs, Dind(i, j)) == Filled(t.words, j, t.used)[j]
  {
    var p := Leaf(i, j, m);
    AcquireWorks(fs, p);
    TableOpened(fs, i, DIND);
    var t := OpenTable(fs.inodes, fs.used, fs.disk, i, DIND);
    LeafOpened(fs, i, j, fs.disk, t.tb, t.words, t.isNew);
    var ls := Acquire(fs, Dind(i, j));
    AcquireWorks(fs, Dind(i, j));
    ChainStep(fs, ls, p);
    FillAcquires(ls, p);
    assert Slot(Fill(ls, p), Root(i, DIND)) == Slot(ls, Root(i, DIND)) == t.tb;
    assert Slot(Fill(ls, p), Dind(i, j)) == Slot(ls, Dind(i, j));
  }

  lemma RunDoubleChanges(fs: Fs, i: nat, j: nat, m: nat)
    requires var p := Leaf(i, j, m); Inv(fs) && Valid(fs, p) && FreeCount(fs.used) >= Need(fs, p)
    requires Inv(Acquire(fs, Leaf(i, j, m)))
    ensures HasInode(fs.inodes, fs.disk, i)
    ensures var x := RunDouble(fs.inodes, fs.used, fs.disk, i, j, m);
      forall k :: 0 <= k < |x.added| ==> Changed(fs, Acquire(fs, Leaf(i, j, m)), Leaf(i, j, m), x.added[k].block)
  {
    var p, gs := Leaf(i, j, m), Acquire(fs, Leaf(i, j, m));
    DoubleSlots(fs, i, j, m);
    var t := OpenTable(fs.inodes, fs.used, fs.disk, i, DIND);
    assert Slot(fs, Root(i, DIND)) == fs.inodes[i].block[DIND];
    if t.words[j] == 0 {
      assert Slot(fs, Dind(i, j)) == 0 && Changes(fs, p, Root(i, DIND)) && Changes(fs, p, Dind(i, j));
    } else {
      assert Slot(fs, Dind(i, j)) == t.words[j];
      assert Slot(fs, p) == ReadTable(fs.disk, t.words[j])[m];
      if Slot(fs, p) == 0 { assert Changes(fs, p, Dind(i, j)); }
    }
  }

  // ---- when it is not ----

  /** On the way to p, disk has the words of hs; where one is empty, it has the whole table. */
  ghost predicate Agrees(disk: seq<Words>, hs: Fs, p: Path)
    requires Inv(hs) && Valid(hs, p) && |disk| == |hs.disk| && forall b :: 0 <= b < |disk| ==> |disk[b]| == PTRS
    decreases Depth(p)
  {
    p.Root? ||
    (Agrees(disk, hs, Parent(p)) &&
     var t := Slot(hs, Parent(p));
     0 < t < |disk| ==>
     disk[t][WordIndex(p)] == hs.disk[t][WordIndex(p)] &&
     (Slot(hs, p) == 0 ==> disk[t] == hs.disk[t]))
  }

  /** Then the computation comes out the same. */
  lemma RunAgrees(disk: seq<Words>, hs: Fs, p: Path)
    requires Inv(hs) && Reachable(p) && Valid(hs, p) && |disk| == |hs.disk| && forall b :: 0 <= b < |disk| ==>
      |disk[b]| == PTRS
    requires Agrees(disk, hs, p)
    ensures HasInode(hs.inodes, disk, p.i) && HasInode(hs.inodes, hs.disk, p.i)
    ensures Run(hs.inodes, hs.used, disk, p) == Run(hs.inodes, hs.used, hs.disk, p)
  {
    match p
    case Root(i, k) =>
    case Ind(i, j) =>
      assert Slot(hs, Root(i, IND)) == hs.inodes[i].block[IND];
    case Leaf(i, j, m) =>
      assert Slot(hs, Root(i, DIND)) == hs.inodes[i].block[DIND];
      assert Agrees(disk, hs, Dind(i, j));
      var t := hs.inodes[i].block[DIND];
      if t != 0 {
        assert disk[t][j] == hs.disk[t][j] == Slot(hs, Dind(i, j));
      }
  }

  /** A block that is there is found, and nothing changes. */
  lemma RunMapped(es: Fs, p: Path)
    requires Inv(es) && Reachable(p) && Valid(es, p) && Slot(es, p) != 0
    ensures HasInode(es.inodes, es.disk, p.i) &&
      Run(es.inodes, es.used, es.disk, p) == Outcome(es.inodes, es.used, [], Slot(es, p))
  {}

  /** With block 0 in use no new block is block 0, so an indirect block that was asked for is found. */
  lemma IndirectFound(inodes: seq<Inode>, used: seq<bool>, disk: seq<Words>, i: nat, e: nat)
    requires HasInode(inodes, disk, i) && e < PTRS && |used| > 0 && used[0]
    ensures RunIndirect(inodes, used, disk, i, e).r != 0
  {
    var t := OpenTable(inodes, used, disk, i, IND);
    assert FirstFree(used) != 0 && Grab(used)[0];
    assert t.used[0] && FirstFree(t.used) != 0;
  }

  // ---- when the code can run ----

  ghost predicate TableOk(inodes: seq<Inode>, used: seq<bool>, disk: seq<Words>, i: nat, k: nat)
    requires HasInode(inodes, disk, i) && k <= DIND
  {
    if inodes[i].block[k] == 0 then FreeCount(used) > 0 else 0 < inodes[i].block[k] < |disk|
  }

  /** Every table read lies on the disk, and the bitmap is not full when a block is taken. */
  ghost predicate RunOk(inodes: seq<Inode>, used: seq<bool>, disk: seq<Words>, p: Path)
    requires HasInode(inodes, disk, p.i) && Reachable(p)
  {
    match p
    case Root(i, k) => inodes[i].block[k] == 0 ==> FreeCount(used) > 0
    case Ind(i, j) =>
      && TableOk(inodes, used, disk, i, IND)
      && var t := OpenTable(inodes, used, disk, i, IND);
         t.words[j] == 0 ==> FreeCount(t.used) > 0
    case Leaf(i, j, m) =>
      && TableOk(inodes, used, disk, i, DIND)
      && var t := OpenTable(inodes, used, disk, i, DIND);
         && (if t.words[j] == 0 then FreeCount(t.used) > 0 else 0 < t.words[j] < |disk|)
         && var f := OpenLeaf(inodes, used, disk, i, j);
            f.words[m] == 0 ==> FreeCount(f.used) > 0
  }

  lemma AcquireRuns(fs: Fs, p: Path)
    requires Inv(fs) && Reachable(p) && Valid(fs, p) && FreeCount(fs.used) >= Need(fs, p)
    ensures HasInode(fs.inodes, fs.disk, p.i) && RunOk(fs.inodes, fs.used, fs.disk, p)
  {
    match p
    case Root(i, k) =>
      assert fs.inodes[i].block[k] == Slot(fs, p);
    case Ind(i, j) =>
      IndirectRuns(fs, i, j);
    case Leaf(i, j, m) =>
      DoubleRuns(fs, i, j, m);
  }

  lemma IndirectRuns(fs: Fs, i: nat, j: nat)
    requires Inv(fs) && j < PTRS && Valid(fs, Ind(i, j)) && FreeCount(fs.used) >= Need(fs, Ind(i, j))
    ensures HasInode(fs.inodes, fs.disk, i) && RunOk(fs.inodes, fs.used, fs.disk, Ind(i, j))
  {
    assert fs.inodes[i].block[IND] == Slot(fs, Root(i, IND));
    TableOpened(fs, i, IND);
    var t := OpenTable(fs.inodes, fs.used, fs.disk, i, IND);
    IndirectDone(fs, i, j, fs.disk, t.tb, t.words, t.isNew, t.words[j] == 0);
  }

  lemma DoubleRuns(fs: Fs, i: nat, j: nat, m: nat)
    requires Inv(fs) && j < PTRS && m < PTRS && Valid(fs, Leaf(i, j, m))
    requires FreeCount(fs.used) >= Need(fs, Leaf(i, j, m))
    ensures HasInode(fs.inodes, fs.disk, i) && RunOk(fs.inodes, fs.used, fs.disk, Leaf(i, j, m))
  {
    assert fs.inodes[i].block[DIND] == Slot(fs, Root(i, DIND));
    TableOpened(fs, i, DIND);
    var t := OpenTable(fs.inodes, fs.used, fs.disk, i, DIND);
    LeafOpened(fs, i, j, fs.disk, t.tb, t.words, t.isNew);
    var words, isNew := Filled(t.words, j, t.used), t.words[j] == 0;
    var leaf := if isNew then Zeros() else ReadTable(fs.disk, words[j]);
    DoubleDone(fs, Leaf(i, j, m), fs.disk, t.tb, words, t.isNew || isNew, words[j], leaf, isNew, leaf[m] == 0);
  }

  lemma RunOkAgrees(disk: seq<Words>, hs: Fs, p: Path)
    requires Inv(hs) && Reachable(p) && Valid(hs, p) && |disk| == |hs.disk| && forall b :: 0 <= b < |disk| ==>
      |disk[b]| == PTRS
    requires Agrees(disk, hs, p) && FreeCount(hs.used) >= Need(hs, p)
    ensures HasInode(hs.inodes, disk, p.i) && RunOk(hs.inodes, hs.used, disk, p)
  {
    AcquireRuns(hs, p);
    match p
    case Root(i, k) =>
    case Ind(i, j) =>
      assert Slot(hs, Root(i, IND)) == hs.inodes[i].block[IND];
    case Leaf(i, j, m) =>
      assert Slot(hs, Root(i, DIND)) == hs.inodes[i].block[DIND];
      assert Agrees(disk, hs, Dind(i, j));
      var t := hs.inodes[i].block[DIND];
      if t != 0 {
        assert disk[t][j] == hs.disk[t][j] == Slot(hs, Dind(i, j));
      }
  }
}
