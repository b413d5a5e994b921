/** The state of a file system part-way through ext3_write: what the disk will hold once the
    pending blocks are written, against what the code still reads from the disk. */
module Ext3Pending {
  import opened Digits
  import opened Ext3Map
  import opened Ext3Ensure
  import opened Ext3Blocks
  import opened Ext3Bytes

  // ---- the write-back list ----

  ghost predicate Avoids(dirty: seq<Dirty>, b: int)
  {
    forall k :: 0 <= k < |dirty| ==> dirty[k].block != b
  }

  lemma NothingAdded(dirty: seq<Dirty>)
    ensures [] + dirty == dirty
  {}

  lemma {:induction false} FlushedShape(disk: seq<Words>, dirty: seq<Dirty>)
    requires Writable(dirty, |disk|) && forall b :: 0 <= b < |disk| ==> |disk[b]| == PTRS
    ensures forall b :: 0 <= b < |disk| ==> |Flushed(disk, dirty)[b]| == PTRS
    decreases |dirty|
  {
    if dirty != [] { FlushedShape(disk[dirty[0].block := dirty[0].content], dirty[1..]); }
  }

  /** A block the list does not name keeps its content. */
  lemma {:induction false} FlushedAvoids(disk: seq<Words>, dirty: seq<Dirty>, b: int)
    requires Writable(dirty, |disk|) && 0 <= b < |disk| && Avoids(dirty, b)
    ensures Flushed(disk, dirty)[b] == disk[b]
    decreases |dirty|
  {
    if dirty != [] {
      assert dirty[0].block != b;
      FlushedAvoids(disk[dirty[0].block := dirty[0].content], dirty[1..], b);
    }
  }

  /** What a block ends up as depends on the disk only through that block. */
  lemma {:induction false} FlushedSame(disk: seq<Words>, disk': seq<Words>, dirty: seq<Dirty>, b: int)
    requires |disk| == |disk'| && Writable(dirty, |disk|) && 0 <= b < |disk| && disk[b] == disk'[b]
    ensures Flushed(disk, dirty)[b] == Flushed(disk', dirty)[b]
    decreases |dirty|
  {
    if dirty != [] {
      var d := dirty[0];
      FlushedSame(disk[d.block := d.content], disk'[d.block := d.content], dirty[1..], b);
    }
  }

  lemma FlushedUpdate(disk: seq<Words>, b: int, content: Words, rest: seq<Dirty>, k: int)
    requires 0 <= b < |disk| && 0 <= k < |disk| && |content| == PTRS && Writable(rest, |disk|) && Avoids(rest, b)
    ensures Flushed(disk[b := content], rest)[k] == Flushed(disk, rest)[b := content][k]
  {
    if k == b {
      FlushedAvoids(disk[b := content], rest, b);
    } else {
      FlushedSame(disk[b := content], disk, rest, k);
    }
  }

  /** Putting a block on the list that is not there yet updates just that block of the outcome. */
  lemma FlushedPush(disk: seq<Words>, b: int, content: Words, rest: seq<Dirty>)
    requires 0 <= b < |disk| && |content| == PTRS && Writable(rest, |disk|) && Avoids(rest, b)
    ensures Writable([Dirty(b, content)] + rest, |disk|)
    ensures Flushed(disk, [Dirty(b, content)] + rest) == Flushed(disk, rest)[b := content]
  {
    FlushedHead(disk, Dirty(b, content), rest);
    var x, y := Flushed(disk[b := content], rest), Flushed(disk, rest)[b := content];
    forall k | 0 <= k < |disk| ensures x[k] == y[k] {
      FlushedUpdate(disk, b, content, rest, k);
    }
  }

  lemma {:induction false} FlushedConcat(disk: seq<Words>, a: seq<Dirty>, rest: seq<Dirty>)
    requires Writable(a, |disk|) && Writable(rest, |disk|)
    ensures Writable(a + rest, |disk|)
    ensures Flushed(disk, a + rest) == Flushed(Flushed(disk, a), rest)
    decreases |a|
  {
    if a == [] {
      assert a + rest == rest;
    } else {
      assert (a + rest)[1..] == a[1..] + rest;
      FlushedConcat(disk[a[0].block := a[0].content], a[1..], rest);
    }
  }

  // ---- states that agree on their tables ----

  /** gs has the inodes, marks and table blocks of fs; data blocks may differ. */
  ghost predicate SameTables(fs: Fs, gs: Fs)
    requires Shaped(fs)
  {
    && Shaped(gs) && gs.inodes == fs.inodes && gs.used == fs.used && |gs.disk| == |fs.disk|
    && forall q {:trigger Slot(fs, q)} :: Valid(fs, q) && IsTable(q) && 0 < Slot(fs, q) < |fs.disk| ==>
         gs.disk[Slot(fs, q)] == fs.disk[Slot(fs, q)]
  }

  lemma SameSlot(fs: Fs, gs: Fs, q: Path)
    requires Inv(fs) && SameTables(fs, gs) && Valid(fs, q)
    ensures Slot(gs, q) == Slot(fs, q)
  {
    match q
    case Root(i, k) =>
    case Ind(i, j) => assert Slot(fs, Root(i, IND)) == fs.inodes[i].block[IND];
    case Dind(i, j) => assert Slot(fs, Root(i, DIND)) == fs.inodes[i].block[DIND];
    case Leaf(i, j, m) =>
      assert Slot(fs, Root(i, DIND)) == fs.inodes[i].block[DIND];
      assert Slot(fs, Dind(i, j)) == Entry(fs.disk, fs.inodes[i].block[DIND], j);
  }

  lemma SameTablesKeepInv(fs: Fs, gs: Fs)
    requires Inv(fs) && SameTables(fs, gs)
    ensures Inv(gs) && forall q {:trigger Slot(gs, q)} :: Valid(fs, q) ==> Slot(gs, q) == Slot(fs, q)
  {
    forall q | Valid(fs, q) ensures Slot(gs, q) == Slot(fs, q) { SameSlot(fs, gs, q); }
  }

  ghost function Overlay(fs: Fs, dirty: seq<Dirty>): Fs
    requires Writable(dirty, |fs.disk|)
  {
    fs.(disk := Flushed(fs.disk, dirty))
  }

  // ---- writing one data block ----

  ghost function Poke(fs: Fs, b: int, content: Words): Fs
    requires 0 <= b < |fs.disk|
  {
    fs.(disk := fs.disk[b := content])
  }

  lemma PokeKeepsInv(fs: Fs, i: nat, l: nat, content: Words)
    requires Inv(fs) && i < |fs.inodes| && l <= SECOND_STAGE && BlockOf(fs, i, l) != 0 && |content| == PTRS
    ensures 0 < BlockOf(fs, i, l) < |fs.disk|
    ensures var gs := Poke(fs, BlockOf(fs, i, l), content);
      Inv(gs) && forall q {:trigger Slot(gs, q)} :: Valid(fs, q) ==> Slot(gs, q) == Slot(fs, q)
  {
    var p := PathOf(i, l);
    PathOfValid(fs, i, l);
    PathOfInjective(i, l, i, l);
    var b := Slot(fs, p);
    var gs := Poke(fs, b, content);
    forall q | Valid(fs, q) && IsTable(q) && 0 < Slot(fs, q) < |fs.disk|
      ensures gs.disk[Slot(fs, q)] == fs.disk[Slot(fs, q)]
    {
      assert Slot(fs, q) != b;
    }
    SameTablesKeepInv(fs, gs);
  }

  lemma PokeData(fs: Fs, i: nat, l: nat, content: Words, i': nat, l': int)
    requires Inv(fs) && i < |fs.inodes| && l <= SECOND_STAGE && BlockOf(fs, i, l) != 0 && |content| == PTRS &&
      i' < |fs.inodes|
    ensures 0 < BlockOf(fs, i, l) < |fs.disk| && Inv(Poke(fs, BlockOf(fs, i, l), content))
    ensures BlockOf(Poke(fs, BlockOf(fs, i, l), content), i', l') == BlockOf(fs, i', l')
    ensures Data(Poke(fs, BlockOf(fs, i, l), content), i', l') == if (i', l') == (i,
      l as int) then ToBytes(content) else Data(fs, i', l')
  {
    PokeKeepsInv(fs, i, l, content);
    PathOfValid(fs, i, l);
    if 0 <= l' <= SECOND_STAGE {
      PathOfValid(fs, i', l');
      PathOfInjective(i, l, i', l');
      var gs := Poke(fs, BlockOf(fs, i, l), content);
      assert Slot(gs, PathOf(i', l')) == Slot(fs, PathOf(i', l'));
      assert Slot(fs, PathOf(i, l)) == Slot(fs, PathOf(i', l')) ==> PathOf(i, l) == PathOf(i', l');
    }
  }

  // ---- the loop of ext3_write ----

  /** On the way to p the disk has the words of es; a table with an empty slot on the way is not on the list. */
  ghost predicate Seen(disk: seq<Words>, dirty: seq<Dirty>, es: Fs, p: Path)
    requires Inv(es) && Valid(es, p) && |disk| == |es.disk| && forall b :: 0 <= b < |disk| ==> |disk[b]| == PTRS
    decreases Depth(p)
  {
    p.Root? ||
    (Seen(disk, dirty, es, Parent(p)) &&
     var t := Slot(es, Parent(p));
     0 < t < |disk| ==> disk[t][WordIndex(p)] == es.disk[t][WordIndex(p)] && (Slot(es, p) == 0 ==> Avoids(dirty, t)))
  }

  ghost predicate AllUsed(dirty: seq<Dirty>, used: seq<bool>)
  {
    forall k :: 0 <= k < |dirty| ==> 0 <= dirty[k].block < |used| && used[dirty[k].block]
  }

  /** fs is what the code reads and es what the flush will make of it. From logical block lw on, inode i's data
      is not on the list; from lr up to end, what has to be read of its tables is on the disk. */
  ghost predicate Pending(fs: Fs, dirty: seq<Dirty>, es: Fs, i: nat, lw: nat, lr: nat, end: nat)
  {
    && Inv(es) && Shaped(fs) && i < |fs.inodes| && Writable(dirty, |fs.disk|) && es == Overlay(fs, dirty)
    && AllUsed(dirty, es.used)
    && (forall l {:trigger BlockOf(es, i, l)} :: lw <= l && BlockOf(es, i, l) != 0 ==> Avoids(dirty, BlockOf(es, i, l)))
    && (forall l: nat {:trigger PathOf(i, l)} :: lr <= l < end && l <= SECOND_STAGE ==>
         Seen(fs.disk, dirty, es, PathOf(i, l)))
  }

  lemma SeenClean(fs: Fs, p: Path)
    requires Inv(fs) && Valid(fs, p)
    ensures Seen(fs.disk, [], fs, p)
    decreases Depth(p)
  {
    if !p.Root? { SeenClean(fs, Parent(p)); }
  }

  lemma PendingStart(fs: Fs, i: nat, l: nat, end: nat)
    requires Inv(fs) && i < |fs.inodes|
    ensures Pending(fs, [], fs, i, l, l, end)
  {
    forall l': nat {:trigger PathOf(i, l')} | l <= l' < end && l' <= SECOND_STAGE
      ensures Seen(fs.disk, [], fs, PathOf(i, l'))
    {
      SeenClean(fs, PathOf(i, l'));
    }
  }

  lemma SeenAgrees(fs: Fs, dirty: seq<Dirty>, es: Fs, p: Path)
    requires Inv(es) && Shaped(fs) && Writable(dirty, |fs.disk|) && es == Overlay(fs, dirty) && Valid(es, p) &&
      Seen(fs.disk, dirty, es, p)
    ensures Agrees(fs.disk, es, p)
    decreases Depth(p)
  {
    if !p.Root? {
      SeenAgrees(fs, dirty, es, Parent(p));
      var t := Slot(es, Parent(p));
      if 0 < t < |fs.disk| && Slot(es, p) == 0 { FlushedAvoids(fs.disk, dirty, t); }
    }
  }

  lemma SeenSlot(fs: Fs, dirty: seq<Dirty>, es: Fs, p: Path)
    requires Inv(es) && Shaped(fs) && Writable(dirty, |fs.disk|) && es == Overlay(fs, dirty) && Valid(es, p) &&
      Seen(fs.disk, dirty, es, p)
    ensures Slot(fs, p) == Slot(es, p)
    decreases Depth(p)
  {
    if !p.Root? { SeenSlot(fs, dirty, es, Parent(p)); }
  }

  /** A block still to be written is looked up correctly. */
  lemma PendingBlock(fs: Fs, dirty: seq<Dirty>, es: Fs, i: nat, lw: nat, lr: nat, end: nat, l: nat)
    requires Pending(fs, dirty, es, i, lw, lr, end) && lr <= l && (l < end || l > SECOND_STAGE)
    ensures BlockOf(fs, i, l) == BlockOf(es, i, l) && Findable(fs, i, l)
  {
    InvFindable(es, i, l);
    if l <= SECOND_STAGE {
      PathOfValid(es, i, l);
      SeenSlot(fs, dirty, es, PathOf(i, l));
      if l > FIRST_STAGE {
        var j: nat := (l - FIRST_STAGE - 1) / PTRS;
        SeenSlot(fs, dirty, es, Dind(i, j));
        assert Slot(es, Root(i, DIND)) == es.inodes[i].block[DIND];
        assert Seen(fs.disk, dirty, es, Dind(i, j));
      }
    }
  }

  lemma SeenPush(disk: seq<Words>, dirty: seq<Dirty>, es: Fs, b: int, content: Words, p: Path)
    requires Inv(es) && Valid(es, p) && |disk| == |es.disk| && (forall b :: 0 <= b < |disk| ==> |disk[b]| == PTRS) &&
      Seen(disk, dirty, es, p)
    requires 0 < b < |es.disk| && !TableBlock(es, b) && Inv(Poke(es, b, content))
    requires forall q {:trigger Slot(Poke(es, b, content), q)} :: Valid(es, q) ==>
      Slot(Poke(es, b, content), q) == Slot(es, q)
    ensures Valid(Poke(es, b, content), p) && Seen(disk, [Dirty(b, content)] + dirty, Poke(es, b, content), p)
    decreases Depth(p)
  {
    if !p.Root? {
      SeenPush(disk, dirty, es, b, content, Parent(p));
      var t := Slot(es, Parent(p));
      assert Slot(Poke(es, b, content), Parent(p)) == t;
      if 0 < t < |disk| { assert Valid(es, Parent(p)) && IsTable(Parent(p)) && t != b; }
    }
  }

  lemma DataIsNoTable(es: Fs, i: nat, l: nat)
    requires Inv(es) && i < |es.inodes| && l <= SECOND_STAGE && BlockOf(es, i, l) != 0
    ensures !TableBlock(es, BlockOf(es, i, l))
  {
    PathOfValid(es, i, l);
    PathOfInjective(i, l, i, l);
    assert BlockOf(es, i, l) == Slot(es, PathOf(i, l));
  }

  /** Pushing the data of a mapped block. */
  lemma PendingPush(fs: Fs, dirty: seq<Dirty>, es: Fs, i: nat, l: nat, end: nat, content: Words)
    requires Pending(fs, dirty, es, i, l, l + 1, end) && l <= SECOND_STAGE && BlockOf(es, i, l) != 0 &&
      |content| == PTRS
    ensures 0 < BlockOf(es, i, l) < |es.disk|
    ensures Pending(fs, [Dirty(BlockOf(es, i, l), content)] + dirty, Poke(es, BlockOf(es, i, l), content), i, l + 1,
      l + 1, end)
  {
    var b := BlockOf(es, i, l);
    PokeKeepsInv(es, i, l, content);
    var es', dirty' := Poke(es, b, content), [Dirty(b, content)] + dirty;
    FlushedPush(fs.disk, b, content, dirty);
    forall l' | l + 1 <= l' && BlockOf(es', i, l') != 0 ensures Avoids(dirty', BlockOf(es', i, l')) {
      PokeData(es, i, l, content, i, l');
      LaterDiffers(es, i, l, l');
    }
    DataIsNoTable(es, i, l);
    forall l': nat {:trigger PathOf(i, l')} | l + 1 <= l' < end && l' <= SECOND_STAGE
      ensures Seen(fs.disk, dirty', es', PathOf(i, l'))
    {
      SeenPush(fs.disk, dirty, es, b, content, PathOf(i, l'));
    }
    PathOfValid(es, i, l);
    assert es.used[b] by { assert Slot(es, PathOf(i, l)) == b; }
  }

  lemma LaterDiffers(fs: Fs, i: nat, l: nat, l': nat)
    requires Inv(fs) && i < |fs.inodes| && l < l' && BlockOf(fs, i, l) != 0 && BlockOf(fs, i, l') != 0
    ensures BlockOf(fs, i, l') != BlockOf(fs, i, l)
  {
    PathOfValid(fs, i, l);
    PathOfValid(fs, i, l');
    PathOfInjective(i, l, i, l');
    var p, p' := PathOf(i, l), PathOf(i, l');
    assert Slot(fs, p) == Slot(fs, p') ==> p == p';
  }

  // ---- two slots whose acquisitions write one table ----

  /** Some table is written by acquiring p and by acquiring q. */
  ghost predicate Clash(fs: Fs, p: Path, q: Path)
    requires Shaped(fs) && Valid(fs, p) && Valid(fs, q)
  {
    exists r :: Changes(fs, p, r) && Changes(fs, q, r)
  }

  lemma OnWayChanges(es: Fs, p: Path, q: Path)
    requires Shaped(es) && Valid(es, p) && Valid(es, q) && OnWay(q, p) && Slot(es, q) == 0
    ensures !q.Root? ==> Changes(es, p, Parent(q))
    ensures q != p ==> Changes(es, p, q)
    decreases Depth(p)
  {
    if q != p { OnWayChanges(es, Parent(p), q); }
  }

  lemma MappedChangesNone(es: Fs, p: Path, r: Path)
    requires Shaped(es) && Valid(es, p) && Slot(es, p) != 0
    ensures !Changes(es, p, r)
    decreases Depth(p)
  {
    if !p.Root? { MappedChangesNone(es, Parent(p), r); }
  }

  /** A table written on the way to p is not on the list. */
  lemma SeenChanges(disk: seq<Words>, dirty: seq<Dirty>, es: Fs, p: Path, r: Path)
    requires Inv(es) && Valid(es, p) && |disk| == |es.disk| && (forall b :: 0 <= b < |disk| ==> |disk[b]| == PTRS) &&
      Seen(disk, dirty, es, p)
    requires Changes(es, p, r) && Valid(es, r) && 0 < Slot(es, r) < |disk|
    ensures Avoids(dirty, Slot(es, r))
    decreases Depth(p)
  {
    if !(r == Parent(p) && Slot(es, p) == 0) { SeenChanges(disk, dirty, es, Parent(p), r); }
  }

  ghost predicate ChangedOnly(es: Fs, gs: Fs, p: Path, added: seq<Dirty>)
    requires Shaped(es) && Valid(es, p) && Shaped(gs)
  {
    forall k :: 0 <= k < |added| ==> Changed(es, gs, p, added[k].block)
  }

  /** gs is es with the missing slot of logical block l acquired, by the tables in added. */
  ghost predicate Got(es: Fs, gs: Fs, i: nat, l: nat, added: seq<Dirty>)
  {
    && Inv(es) && i < |es.inodes| && l <= SECOND_STAGE && Valid(es, PathOf(i, l)) && BlockOf(es, i, l) == 0
    && Acquired(es, gs, PathOf(i, l)) && Framed(es, gs) && Writable(added, |es.disk|)
    && gs.disk == Flushed(es.disk, added)
    && OnlyTables(gs, added) && ChangedOnly(es, gs, PathOf(i, l), added)
  }

  ghost predicate CanAcquire(es: Fs, i: nat, l: nat)
  {
    && Inv(es) && i < |es.inodes| && l <= SECOND_STAGE && Valid(es, PathOf(i, l)) && Reachable(PathOf(i, l))
    && BlockOf(es, i, l) == 0 && FreeCount(es.used) >= Need(es, PathOf(i, l))
  }

  /** What ext3_inode_ensure_block computes from a disk that agrees with es on the way. */
  lemma EnsureGets(disk: seq<Words>, es: Fs, i: nat, l: nat)
    requires CanAcquire(es, i, l) && |disk| == |es.disk| && (forall b :: 0 <= b < |disk| ==> |disk[b]| == PTRS) &&
      Agrees(disk, es, PathOf(i, l))
    ensures HasInode(es.inodes, disk, i) && RunOk(es.inodes, es.used, disk, PathOf(i, l))
    ensures var x := Run(es.inodes, es.used, disk, PathOf(i, l)); var gs := Acquire(es, PathOf(i, l));
      Got(es, gs, i, l, x.added) && x.inodes == gs.inodes && x.used == gs.used && x.r == BlockOf(gs, i, l) &&
      (l <= ZERO_STAGE ==> x.added == [])
  {
    var p := PathOf(i, l);
    RunAgrees(disk, es, p);
    RunOkAgrees(disk, es, p);
    RunAcquires(es, p);
    RunChanges(es, p);
    AcquireWorks(es, p);
    AcquireFrame(es, p);
  }

  lemma AddedUnlisted(disk: seq<Words>, dirty: seq<Dirty>, es: Fs, gs: Fs, i: nat, l: nat, added: seq<Dirty>, k: nat)
    requires Got(es, gs, i, l, added) && |disk| == |es.disk| && (forall b :: 0 <= b < |disk| ==> |disk[b]| == PTRS)
    requires Seen(disk, dirty, es, PathOf(i, l)) && AllUsed(dirty, es.used) && k < |added|
    ensures Avoids(dirty, added[k].block)
  {
    var p, b := PathOf(i, l), added[k].block;
    assert Changed(es, gs, p, b);
    var r :| Changes(es, p, r) && Valid(gs, r) && IsTable(r) && Slot(gs, r) == b;
    assert SlotFramed(es, gs, r);
    if Slot(es, r) != 0 { SeenChanges(disk, dirty, es, p, r); }
  }

  /** Writing one list before or after another makes no difference if no block is on both. */
  lemma FlushedCommute(disk: seq<Words>, a: seq<Dirty>, b: seq<Dirty>)
    requires Writable(a, |disk|) && Writable(b, |disk|) && forall k :: 0 <= k < |a| ==> Avoids(b, a[k].block)
    ensures Flushed(Flushed(disk, a), b) == Flushed(Flushed(disk, b), a)
  {
    var x, y := Flushed(Flushed(disk, a), b), Flushed(Flushed(disk, b), a);
    forall k | 0 <= k < |disk| ensures x[k] == y[k] { FlushedCommuteAt(disk, a, b, k); }
  }

  lemma FlushedCommuteAt(disk: seq<Words>, a: seq<Dirty>, b: seq<Dirty>, k: nat)
    requires Writable(a, |disk|) && Writable(b, |disk|) && (forall k :: 0 <= k < |a| ==> Avoids(b, a[k].block)) &&
      k < |disk|
    ensures Flushed(Flushed(disk, a), b)[k] == Flushed(Flushed(disk, b), a)[k]
  {
    if Avoids(a, k) {
      FlushedAvoids(disk, a, k);
      FlushedAvoids(Flushed(disk, b), a, k);
      FlushedSame(Flushed(disk, a), disk, b, k);
    } else {
      assert Avoids(b, k);
      FlushedAvoids(disk, b, k);
      FlushedAvoids(Flushed(disk, a), b, k);
      FlushedSame(Flushed(disk, b), disk, a, k);
    }
  }

  /** What the code reads once the inode is updated and the tables are not. */
  ghost function Stale(fs: Fs, gs: Fs): Fs { Fs(gs.inodes, fs.disk, gs.used) }

  lemma GotOverlay(fs: Fs, dirty: seq<Dirty>, es: Fs, gs: Fs, i: nat, l: nat, added: seq<Dirty>)
    requires Got(es, gs, i, l, added) && Shaped(fs) && Writable(dirty, |fs.disk|) && es == Overlay(fs, dirty)
    requires Seen(fs.disk, dirty, es, PathOf(i, l)) && AllUsed(dirty, es.used)
    ensures Writable(added + dirty, |fs.disk|) && Overlay(Stale(fs, gs), added + dirty) == gs &&
      AllUsed(added + dirty, gs.used)
  {
    forall k: nat | k < |added|
      ensures Avoids(dirty, added[k].block)
    {
      AddedUnlisted(fs.disk, dirty, es, gs, i, l, added, k);
    }
    FlushedCommute(fs.disk, added, dirty);
    FlushedConcat(fs.disk, added, dirty);
    AllStillUsed(gs, added, dirty, es.used);
  }

  /** A slot that shares no written table with p is seen as before. */
  lemma SeenAcquire(disk: seq<Words>, dirty: seq<Dirty>, es: Fs, gs: Fs, i: nat, l: nat, added: seq<Dirty>, q: Path)
    requires Got(es, gs, i, l, added) && |disk| == |es.disk| && (forall b :: 0 <= b < |disk| ==> |disk[b]| == PTRS)
    requires Valid(es, q) && Seen(disk, dirty, es, q) && !Clash(es, PathOf(i, l), q)
    ensures Valid(gs, q) && Seen(disk, added + dirty, gs, q)
    decreases Depth(q)
  {
    if !q.Root? {
      var p, r := PathOf(i, l), Parent(q);
      assert forall r' :: Changes(es, r, r') ==> Changes(es, q, r');
      SeenAcquire(disk, dirty, es, gs, i, l, added, r);
      if Slot(es, q) == 0 { assert Changes(es, q, r); }
      ParentKept(es, gs, i, l, added, q);
      var t := Slot(gs, r);
      if 0 < t < |disk| {
        SlotKept(es, gs, i, l, added, q);
        if Slot(gs, q) == 0 { NotAdded(es, gs, i, l, added, q); }
      }
    }
  }

  /** The table of such a slot is where it was. */
  lemma ParentKept(es: Fs, gs: Fs, i: nat, l: nat, added: seq<Dirty>, q: Path)
    requires Got(es, gs, i, l, added) && Valid(es, q) && !q.Root? && !Clash(es, PathOf(i, l), q)
    ensures Slot(gs, Parent(q)) == Slot(es, Parent(q))
  {
    var p, r := PathOf(i, l), Parent(q);
    if Slot(es, r) == 0 && OnWay(r, p) {
      PathOfInjective(i, l, i, l);
      OnWayChanges(es, p, r);
      assert Slot(es, q) == 0 && Changes(es, q, r);
    }
  }

  lemma SlotKept(es: Fs, gs: Fs, i: nat, l: nat, added: seq<Dirty>, q: Path)
    requires Got(es, gs, i, l, added) && Valid(es, q) && !q.Root? && !Clash(es, PathOf(i, l), q)
    ensures Slot(gs, q) == Slot(es, q)
  {
    var p := PathOf(i, l);
    if Slot(es, q) == 0 && OnWay(q, p) {
      OnWayChanges(es, p, q);
      assert Changes(es, q, Parent(q));
    }
  }

  lemma NotAdded(es: Fs, gs: Fs, i: nat, l: nat, added: seq<Dirty>, q: Path)
    requires Got(es, gs, i, l, added) && Valid(es, q) && !q.Root? && !Clash(es, PathOf(i, l), q)
    requires Slot(es, q) == 0 && Slot(gs, Parent(q)) != 0
    ensures Avoids(added, Slot(gs, Parent(q)))
  {
    var p, r, t := PathOf(i, l), Parent(q), Slot(gs, Parent(q));
    assert Changes(es, q, r);
    forall k | 0 <= k < |added| ensures added[k].block != t {
      assert Changed(es, gs, p, added[k].block);
      var r' :| Changes(es, p, r') && Valid(gs, r') && IsTable(r') && Slot(gs, r') == added[k].block;
    }
  }

  /** The new data block is not pending, nor is the data of any other block that was not. */
  lemma GotAvoids(es: Fs, gs: Fs, i: nat, l: nat, added: seq<Dirty>, dirty: seq<Dirty>, l': nat)
    requires Got(es, gs, i, l, added) && AllUsed(dirty, es.used)
    requires BlockOf(es, i, l') != 0 ==> Avoids(dirty, BlockOf(es, i, l'))
    ensures var v := BlockOf(gs, i, l'); v != 0 ==> Avoids(added + dirty, v) && (l' != l ==> v == BlockOf(es, i, l'))
  {
    AcquiredMapsOne(es, gs, i, l, i, l');
    var p := PathOf(i, l);
    assert SlotFramed(es, gs, p) by { assert Slot(gs, p) == Slot(gs, p); }
    if BlockOf(gs, i, l') != 0 { TablesAvoidData(gs, added, i, l'); }
  }

  lemma TablesAvoidData(gs: Fs, added: seq<Dirty>, i: nat, l: int)
    requires Inv(gs) && OnlyTables(gs, added) && i < |gs.inodes| && BlockOf(gs, i, l) != 0
    ensures Avoids(added, BlockOf(gs, i, l))
  {
    DataIsNoTable(gs, i, l);
  }

  lemma AllStillUsed(gs: Fs, added: seq<Dirty>, dirty: seq<Dirty>, used: seq<bool>)
    requires Inv(gs) && OnlyTables(gs, added) && AllUsed(dirty, used) && |used| == |gs.used|
    requires forall b :: 0 <= b < |used| && used[b] ==> gs.used[b]
    ensures AllUsed(added + dirty, gs.used)
  {
    forall k | 0 <= k < |added| ensures 0 <= added[k].block < |gs.used| && gs.used[added[k].block] {
      assert TableBlock(gs, added[k].block);
      var q :| Valid(gs, q) && IsTable(q) && Slot(gs, q) == added[k].block;
    }
  }

  /** No two of the blocks from l up to end write the same table. */
  ghost predicate Unshared(fs: Fs, i: nat, l: nat, end: nat)
    requires Shaped(fs) && i < |fs.inodes|
  {
    forall a: nat, b: nat {:trigger PathOf(i, a), PathOf(i, b)} :: l <= a < b < end && b <= SECOND_STAGE ==>
      Valid(fs, PathOf(i, a)) && Valid(fs, PathOf(i, b)) && !Clash(fs, PathOf(i, a), PathOf(i, b))
  }

  /** One acquisition inside the loop: afterwards block l is mapped, and not yet pending. */
  lemma PendingAcquire(fs: Fs, dirty: seq<Dirty>, es: Fs, gs: Fs, i: nat, l: nat, end: nat, added: seq<Dirty>)
    requires Pending(fs, dirty, es, i, l, l, end) && l < end && Got(es, gs, i, l, added) && Unshared(es, i, l, end)
    ensures Pending(Stale(fs, gs), added + dirty, gs, i, l, l + 1, end) && BlockOf(gs, i, l) != 0
  {
    GotOverlay(fs, dirty, es, gs, i, l, added);
    AcquiredMapsOne(es, gs, i, l, i, l);
    forall l' | l <= l' && BlockOf(gs, i, l') != 0 ensures Avoids(added + dirty, BlockOf(gs, i, l')) {
      GotAvoids(es, gs, i, l, added, dirty, l');
    }
    forall l': nat {:trigger PathOf(i, l')} | l + 1 <= l' < end && l' <= SECOND_STAGE
      ensures Seen(fs.disk, added + dirty, gs, PathOf(i, l'))
    {
      PathOfValid(es, i, l');
      assert !Clash(es, PathOf(i, l), PathOf(i, l'));
      SeenAcquire(fs.disk, dirty, es, gs, i, l, added, PathOf(i, l'));
    }
  }

  /** Acquiring a block changes the bytes of no other block of any file. */
  lemma AcquireKeepsData(es: Fs, gs: Fs, i: nat, l: nat, added: seq<Dirty>, i': nat, l': int)
    requires Got(es, gs, i, l, added) && i' < |es.inodes| && (i', l') != (i, l as int)
    ensures BlockOf(gs, i', l') == BlockOf(es, i', l') && Data(gs, i', l') == Data(es, i', l')
  {
    AcquiredMapsOne(es, gs, i, l, i', l');
    var v := BlockOf(es, i', l');
    if v != 0 {
      PathOfValid(es, i', l');
      PathOfInjective(i', l', i, l);
      assert SlotFramed(es, gs, PathOf(i', l')) by { assert Slot(gs, PathOf(i', l')) == v; }
      assert Slot(es, PathOf(i', l')) == v;
    }
  }

  lemma SameSlotsSameBlock(gs: Fs, es: Fs, i: nat, l: int)
    requires Shaped(gs) && Shaped(es) && |es.inodes| == |gs.inodes| && i < |gs.inodes|
    requires forall q {:trigger Slot(es, q)} :: Valid(gs, q) ==> Slot(es, q) == Slot(gs, q)
    ensures BlockOf(es, i, l) == BlockOf(gs, i, l)
  {}
}
