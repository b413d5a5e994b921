/** Two calls of ext3_inode_ensure_block of ext3fs.c with no flush in between: when both blocks survive. */
module Ext3Twice {
  import opened Digits
  import opened Ext3Map
  import opened Ext3Ensure
  import opened Ext3Blocks
  import opened Ext3Bytes
  import opened Ext3Pending
  import opened Ext3Read

  /** Two different missing blocks of inode i, free blocks for everything on both ways, and free blocks holding
      nothing but block numbers: a new table is read from the disk before it is written there. */
  ghost predicate TwoMissing(fs: Fs, i: nat, l: nat, l': nat)
  {
    && Inv(fs) && i < |fs.inodes| && l <= SECOND_STAGE && l' <= SECOND_STAGE && l != l' && BlockOf(fs, i, l) == 0
    && BlockOf(fs, i, l') == 0
    && Valid(fs, PathOf(i, l)) && Valid(fs, PathOf(i, l'))
    && FreeCount(fs.used) >= Need(fs, PathOf(i, l)) + Depth(PathOf(i, l')) + 1
    && forall b, j :: 0 <= b < |fs.disk| && !fs.used[b] && 0 <= j < PTRS ==> 0 <= fs.disk[b][j] < |fs.disk|
  }

  /** The tables two blocks have in common, by the three ranges: the acquisitions clash exactly when both lie in the
      single-indirect range, under one leaf, or under two leaves that are both missing. */
  lemma ClashExactly(fs: Fs, i: nat, l: nat, l': nat)
    requires Inv(fs) && i < |fs.inodes| && l <= SECOND_STAGE && l' <= SECOND_STAGE
    requires Valid(fs, PathOf(i, l)) && Valid(fs, PathOf(i, l')) && BlockOf(fs, i, l) == 0 && BlockOf(fs, i, l') == 0
    ensures var p, p' := PathOf(i, l), PathOf(i, l');
      Clash(fs, p, p') <==>
        (p.Ind? && p'.Ind?) ||
        (p.Leaf? && p'.Leaf? && (p.j == p'.j || (Slot(fs, Dind(i, p.j)) == 0 && Slot(fs, Dind(i, p'.j)) == 0)))
  {
    var p, p' := PathOf(i, l), PathOf(i, l');
    forall r ensures Changes(fs, p, r) <==> Rewritten(fs, p, r) { ChangesIs(fs, p, r); }
    forall r ensures Changes(fs, p', r) <==> Rewritten(fs, p', r) { ChangesIs(fs, p', r); }
    if p.Ind? && p'.Ind? {
      assert Rewritten(fs, p, Root(i, IND)) && Rewritten(fs, p', Root(i, IND));
    } else if p.Leaf? && p'.Leaf? {
      assert Rewritten(fs, p, Dind(i, p.j)) && Rewritten(fs, p', Dind(i, p'.j));
      if Slot(fs, Dind(i, p.j)) == 0 && Slot(fs, Dind(i, p'.j)) == 0 {
        assert Rewritten(fs, p, Root(i, DIND)) && Rewritten(fs, p', Root(i, DIND));
      }
    }
  }

  /** The tables written for a missing block, range by range. */
  ghost predicate Rewritten(fs: Fs, p: Path, r: Path)
    requires Shaped(fs) && Valid(fs, p)
  {
    match p
    case Root(i, k) => false
    case Ind(i, j) => r == Root(i, IND)
    case Dind(i, j) => r == Root(i, DIND)
    case Leaf(i, j, m) => r == Dind(i, j) || (r == Root(i, DIND) && Slot(fs, Dind(i, j)) == 0)
  }

  lemma ChangesIs(fs: Fs, p: Path, r: Path)
    requires Shaped(fs) && Valid(fs, p) && Slot(fs, p) == 0
    ensures Changes(fs, p, r) <==> Rewritten(fs, p, r)
  {
    if p.Leaf? { assert Changes(fs, Dind(p.i, p.j), r) <==> r == Root(p.i, DIND) && Slot(fs, Dind(p.i, p.j)) == 0; }
  }

  // The half where the tables are apart.

  /** Blocks l and l' of inode i are mapped in gs, and every other block of every inode is as in fs. */
  ghost predicate OnlyMapsBoth(fs: Fs, gs: Fs, i: nat, l: nat, l': nat)
    requires Inv(fs) && i < |fs.inodes|
  {
    && Inv(gs) && |gs.inodes| == |fs.inodes| && BlockOf(gs, i, l) != 0 && BlockOf(gs, i, l') != 0
    && forall i': nat, k {:trigger BlockOf(gs, i', k)} ::
         i' < |fs.inodes| && (i', k) != (i, l as int) &&
         (i', k) != (i, l' as int) ==>
         BlockOf(gs, i', k) == BlockOf(fs, i', k)
  }

  lemma NeedBounded(fs: Fs, p: Path)
    requires Shaped(fs) && Valid(fs, p)
    ensures Need(fs, p) <= Depth(p) + 1
    decreases Depth(p)
  {
    if !p.Root? { NeedBounded(fs, Parent(p)); }
  }

  /** The first call leaves the state of gs to come, with its tables on the list. */
  lemma FirstCall(fs: Fs, i: nat, l: nat, l': nat)
    requires TwoMissing(fs, i, l, l')
    ensures HasInode(fs.inodes, fs.disk, i) && RunOk(fs.inodes, fs.used, fs.disk, PathOf(i, l))
    ensures var x := Run(fs.inodes, fs.used, fs.disk, PathOf(i, l)); var gs := Acquire(fs, PathOf(i, l));
      Got(fs, gs, i, l, x.added) && x.inodes == gs.inodes && x.used == gs.used && x.r == BlockOf(gs, i, l) != 0 &&
      BlockOf(gs, i, l') == 0
  {
    AgreesClean(fs, PathOf(i, l));
    EnsureGets(fs.disk, fs, i, l);
    AcquiredMapsOne(fs, Acquire(fs, PathOf(i, l)), i, l, i, l');
  }

  lemma AgreesClean(fs: Fs, p: Path)
    requires Inv(fs) && Valid(fs, p)
    ensures Agrees(fs.disk, fs, p)
    decreases Depth(p)
  {
    if !p.Root? { AgreesClean(fs, Parent(p)); }
  }

  lemma SecondApart(fs: Fs, gs: Fs, i: nat, l: nat, l': nat, added: seq<Dirty>)
    requires TwoMissing(fs, i, l, l') && Got(fs, gs, i, l, added) && BlockOf(gs, i, l') == 0 &&
      !Clash(fs, PathOf(i, l), PathOf(i, l'))
    ensures HasInode(gs.inodes, fs.disk, i) && RunOk(gs.inodes, gs.used, fs.disk, PathOf(i, l'))
    ensures var x' := Run(gs.inodes, gs.used, fs.disk, PathOf(i, l'));
      Writable(x'.added + added, |fs.disk|) && x'.r != 0 &&
      var end := Fs(x'.inodes, Flushed(fs.disk, x'.added + added), x'.used);
      OnlyMapsBoth(fs, end, i, l, l') && BlockOf(end, i, l) == BlockOf(gs, i, l) && BlockOf(end, i, l') == x'.r
  {
    var p, p' := PathOf(i, l), PathOf(i, l');
    SeenClean(fs, p);
    SeenClean(fs, p');
    GotOverlay(fs, [], fs, gs, i, l, added);
    NothingBefore(added);
    SeenAcquire(fs.disk, [], fs, gs, i, l, added, p');
    SeenAgrees(Stale(fs, gs), added, gs, p');
    NeedBounded(gs, p');
    EnsureGets(fs.disk, gs, i, l');
    var x' := Run(gs.inodes, gs.used, fs.disk, p');
    var hs := Acquire(gs, p');
    GotOverlay(Stale(fs, gs), added, gs, hs, i, l', x'.added);
    BothMapped(fs, gs, hs, i, l, l');
  }

  lemma BothMapped(fs: Fs, gs: Fs, hs: Fs, i: nat, l: nat, l': nat)
    requires Inv(fs) && i < |fs.inodes| && l <= SECOND_STAGE && l' <= SECOND_STAGE && l != l' &&
      Valid(fs, PathOf(i, l)) && Valid(gs, PathOf(i, l'))
    requires Inv(gs) && Acquired(fs, gs, PathOf(i, l)) && Acquired(gs, hs, PathOf(i, l'))
    ensures OnlyMapsBoth(fs, hs, i, l, l') && BlockOf(hs, i, l) == BlockOf(gs, i, l)
  {
    AcquiredMapsOne(fs, gs, i, l, i, l);
    AcquiredMapsOne(gs, hs, i, l', i, l);
    forall i': nat, k {:trigger BlockOf(hs, i', k)} | i' < |fs.inodes| && (i', k) != (i, l as int) &&
    (i', k) != (i, l' as int)
      ensures BlockOf(hs, i', k) == BlockOf(fs, i', k)
    {
      AcquiredMapsOne(fs, gs, i, l, i', k);
      AcquiredMapsOne(gs, hs, i, l', i', k);
    }
  }

  // The half where they are not.

  /** A block the list names ends up the same whatever was on the disk. */
  lemma {:induction false} FlushedNamed(disk: seq<Words>, disk': seq<Words>, dirty: seq<Dirty>, b: int)
    requires |disk| == |disk'| && Writable(dirty, |disk|) && 0 <= b < |disk| && !Avoids(dirty, b)
    ensures Flushed(disk, dirty)[b] == Flushed(disk', dirty)[b]
    decreases |dirty|
  {
    var d := dirty[0];
    if d.block == b {
      FlushedSame(disk[b := d.content], disk'[b := d.content], dirty[1..], b);
    } else {
      assert !Avoids(dirty[1..], b) by {
        var k :| 0 <= k < |dirty| && dirty[k].block == b;
        assert dirty[1..][k - 1] == dirty[k];
      }
      FlushedNamed(disk[d.block := d.content], disk'[d.block := d.content], dirty[1..], b);
    }
  }

  lemma GrabCount(used: seq<bool>)
    ensures |Grab(used)| == |used| && FreeCount(Grab(used)) >= FreeCount(used) - 1
  {
    if FirstFree(used) < |used| { FreeCountUpdate(used, FirstFree(used), true); }
  }

  lemma TakenCount(t: Words, e: nat, used: seq<bool>)
    requires e < |t|
    ensures |Taken(t, e, used)| == |used| && FreeCount(Taken(t, e, used)) >= FreeCount(used) - 1
  {
    GrabCount(used);
  }

  /** The numbers read on the way to p lie on the disk, and there are blocks for all of the way. */
  ghost predicate Followable(inodes: seq<Inode>, used: seq<bool>, disk: seq<Words>, p: Path)
  {
    && HasInode(inodes, disk, p.i) && Reachable(p) && |used| == |disk| && FreeCount(used) >= Depth(p) + 1
    && (p.Ind? ==> 0 <= inodes[p.i].block[IND] < |disk|)
    && (p.Leaf? ==> 0 <= inodes[p.i].block[DIND] < |disk|)
    && (p.Leaf? && inodes[p.i].block[DIND] != 0 ==> 0 <= disk[inodes[p.i].block[DIND]][p.j] < |disk|)
  }

  /** Then the code runs, whatever the tables hold; root pointers it finds it leaves alone. */
  ghost predicate Harmless(inodes: seq<Inode>, disk: seq<Words>, x: Outcome, i: nat)
    requires HasInode(inodes, disk, i)
  {
    && Writable(x.added, |disk|) && |x.inodes| == |inodes| && |x.used| == |disk| && |x.inodes[i].block| == 15
    && (forall k :: 0 <= k < |inodes| && k != i ==> x.inodes[k] == inodes[k])
    && forall k :: 0 <= k <= DIND && inodes[i].block[k] != 0 ==> x.inodes[i].block[k] == inodes[i].block[k]
  }

  lemma FollowableRuns(inodes: seq<Inode>, used: seq<bool>, disk: seq<Words>, p: Path)
    requires Followable(inodes, used, disk, p)
    ensures RunOk(inodes, used, disk, p) && Harmless(inodes, disk, Run(inodes, used, disk, p), p.i)
  {
    match p
    case Root(i, k) =>
      FreeExists(used);
      GrabCount(used);
    case Ind(i, j) => FollowableIndirect(inodes, used, disk, p);
    case Leaf(i, j, m) => FollowableDouble(inodes, used, disk, p);
  }

  lemma FollowableIndirect(inodes: seq<Inode>, used: seq<bool>, disk: seq<Words>, p: Path)
    requires p.Ind? && Followable(inodes, used, disk, p)
    ensures RunOk(inodes, used, disk, p) && Harmless(inodes, disk, Run(inodes, used, disk, p), p.i)
  {
    FreeExists(used);
    GrabCount(used);
    var t := OpenTable(inodes, used, disk, p.i, IND);
    TakenCount(t.words, p.j, t.used);
  }

  lemma FollowableDouble(inodes: seq<Inode>, used: seq<bool>, disk: seq<Words>, p: Path)
    requires p.Leaf? && Followable(inodes, used, disk, p)
    ensures RunOk(inodes, used, disk, p) && Harmless(inodes, disk, Run(inodes, used, disk, p), p.i)
  {
    TableFollowed(inodes, used, disk, p);
    LeafFollowed(inodes, used, disk, p);
    DoubleHarmless(inodes, used, disk, p);
  }

  lemma DoubleHarmless(inodes: seq<Inode>, used: seq<bool>, disk: seq<Words>, p: Path)
    requires p.Leaf? && HasInode(inodes, disk, p.i) && p.j < PTRS && p.m < PTRS
    requires var t := OpenTable(inodes, used, disk, p.i, DIND); 0 <= t.tb < |disk|
    requires var f := OpenLeaf(inodes, used, disk, p.i, p.j); |f.used| == |disk| && 0 <= f.tb < |disk|
    ensures Harmless(inodes, disk, RunDouble(inodes, used, disk, p.i, p.j, p.m), p.i)
  {
    var f := OpenLeaf(inodes, used, disk, p.i, p.j);
    TakenCount(f.words, p.m, f.used);
  }

  lemma TableFollowed(inodes: seq<Inode>, used: seq<bool>, disk: seq<Words>, p: Path)
    requires p.Leaf? && Followable(inodes, used, disk, p)
    ensures var t := OpenTable(inodes, used, disk, p.i, DIND);
      TableOk(inodes, used, disk, p.i, DIND) && |t.used| == |disk| && FreeCount(t.used) >= Depth(p) &&
      0 <= t.tb < |disk| && 0 <= t.words[p.j] < |disk|
  {
    FreeExists(used);
    GrabCount(used);
  }

  lemma LeafFollowed(inodes: seq<Inode>, used: seq<bool>, disk: seq<Words>, p: Path)
    requires p.Leaf? && Followable(inodes, used, disk, p)
    requires var t := OpenTable(inodes, used, disk, p.i, DIND);
      |t.used| == |disk| && FreeCount(t.used) >= 2 && 0 <= t.words[p.j] < |disk|
    ensures var f := OpenLeaf(inodes, used, disk, p.i, p.j);
      |f.used| == |disk| && FreeCount(f.used) >= 1 && 0 <= f.tb < |disk|
  {
    var t := OpenTable(inodes, used, disk, p.i, DIND);
    FreeExists(t.used);
    TakenCount(t.words, p.j, t.used);
  }

  /** After the first call the second can run. */
  lemma SecondRuns(fs: Fs, gs: Fs, i: nat, l: nat, l': nat, added: seq<Dirty>)
    requires TwoMissing(fs, i, l, l') && Got(fs, gs, i, l, added)
    ensures Followable(gs.inodes, gs.used, fs.disk, PathOf(i, l'))
  {
    var p' := PathOf(i, l');
    assert gs.inodes[i].block[IND] == Slot(gs, Root(i, IND)) && gs.inodes[i].block[DIND] == Slot(gs, Root(i, DIND));
    if p'.Leaf? && gs.inodes[i].block[DIND] != 0 {
      var r := Root(i, DIND);
      assert SlotFramed(fs, gs, r) by { assert Slot(gs, r) == gs.inodes[i].block[DIND]; }
      if Slot(fs, r) != 0 { assert fs.disk[Slot(fs, r)][p'.j] == Slot(fs, Dind(i, p'.j)); }
    }
  }

  /** The tables written for p are on the list. */
  ghost predicate Named(fs: Fs, gs: Fs, p: Path, added: seq<Dirty>)
    requires Shaped(fs) && Shaped(gs) && Valid(fs, p) && Valid(gs, p)
  {
    && (p.Ind? ==> !Avoids(added, Slot(gs, Root(p.i, IND))))
    && (p.Leaf? ==> !Avoids(added, Slot(gs, Dind(p.i, p.j))))
    && (p.Leaf? && Slot(fs, Dind(p.i, p.j)) == 0 ==> !Avoids(added, Slot(gs, Root(p.i, DIND))))
  }

  lemma RunNames(fs: Fs, p: Path)
    requires Inv(fs) && Reachable(p) && Valid(fs, p) && Slot(fs, p) == 0 && FreeCount(fs.used) >= Need(fs, p)
    ensures HasInode(fs.inodes, fs.disk, p.i) && Inv(Acquire(fs, p)) && Valid(Acquire(fs, p), p)
    ensures Named(fs, Acquire(fs, p), p, Run(fs.inodes, fs.used, fs.disk, p).added)
  {
    AcquireWorks(fs, p);
    RunAcquires(fs, p);
    var x := Run(fs.inodes, fs.used, fs.disk, p);
    match p
    case Root(i, k) =>
    case Ind(i, j) =>
      var t := OpenTable(fs.inodes, fs.used, fs.disk, i, IND);
      assert Slot(Acquire(fs, p), Root(i, IND)) == t.tb;
      assert fs.inodes[i].block[IND] == Slot(fs, Root(i, IND));
      assert x.added[0].block == t.tb;
    case Leaf(i, j, m) =>
      DoubleSlots(fs, i, j, m);
      LeafNames(fs, i, j, m);
  }

  lemma LeafNames(fs: Fs, i: nat, j: nat, m: nat)
    requires Inv(fs) && Valid(fs, Leaf(i, j, m)) && Slot(fs, Leaf(i, j, m)) == 0 && HasInode(fs.inodes, fs.disk, i)
    ensures var x := RunDouble(fs.inodes, fs.used, fs.disk, i, j, m);
      var t := OpenTable(fs.inodes, fs.used, fs.disk, i, DIND);
      !Avoids(x.added, Filled(t.words, j, t.used)[j]) && (Slot(fs, Dind(i, j)) == 0 ==> !Avoids(x.added, t.tb))
  {
    var x := RunDouble(fs.inodes, fs.used, fs.disk, i, j, m);
    var t := OpenTable(fs.inodes, fs.used, fs.disk, i, DIND);
    assert fs.inodes[i].block[DIND] == Slot(fs, Root(i, DIND));
    assert x.added[0].block == Filled(t.words, j, t.used)[j];
    if Slot(fs, Dind(i, j)) == 0 { assert x.added[1].block == t.tb; }
  }

  /** The list with the older tables last: a block named by the first call ends as the first call left it. */
  lemma OlderWins(fs: Fs, gs: Fs, added: seq<Dirty>, added': seq<Dirty>, b: int)
    requires Writable(added, |fs.disk|) && Writable(added', |fs.disk|) && gs.disk == Flushed(fs.disk, added) &&
      0 <= b < |fs.disk| && !Avoids(added, b)
    ensures Writable(added' + added, |fs.disk|) && Flushed(fs.disk, added' + added)[b] == gs.disk[b]
  {
    FlushedConcat(fs.disk, added', added);
    FlushedNamed(Flushed(fs.disk, added'), fs.disk, added, b);
  }

  /** The state after both calls and the flush. */
  ghost function End(fs: Fs, added: seq<Dirty>, x': Outcome): Fs
    requires Writable(x'.added + added, |fs.disk|)
  {
    Fs(x'.inodes, Flushed(fs.disk, x'.added + added), x'.used)
  }

  lemma EndShaped(fs: Fs, gs: Fs, i: nat, added: seq<Dirty>, x': Outcome)
    requires Shaped(fs) && Shaped(gs) && |gs.disk| == |fs.disk| && i < |gs.inodes| &&
      HasInode(gs.inodes, fs.disk, i) && Harmless(gs.inodes, fs.disk, x', i)
    requires Writable(added, |fs.disk|)
    ensures Writable(x'.added + added, |fs.disk|) && Shaped(End(fs, added, x')) &&
      |End(fs, added, x').inodes| == |gs.inodes|
  {
    FlushedConcat(fs.disk, x'.added, added);
    FlushedShape(fs.disk, x'.added + added);
  }

  /** Both blocks hang off one single-indirect table. */
  lemma LostIndirect(fs: Fs, gs: Fs, i: nat, l: nat, l': nat, added: seq<Dirty>, x': Outcome)
    requires TwoMissing(fs, i, l, l') && Got(fs, gs, i, l, added) && PathOf(i, l).Ind? && PathOf(i, l').Ind? &&
      BlockOf(gs, i, l') == 0
    requires Valid(gs, PathOf(i, l)) && !Avoids(added, Slot(gs, Root(i, IND)))
    requires HasInode(gs.inodes, fs.disk, i) && Harmless(gs.inodes, fs.disk, x', i)
    ensures Writable(x'.added + added, |fs.disk|) && Shaped(End(fs, added, x')) && i < |End(fs, added, x').inodes|
    ensures BlockOf(End(fs, added, x'), i, l) == BlockOf(gs, i, l) && BlockOf(End(fs, added, x'), i, l') == 0
  {
    EndShaped(fs, gs, i, added, x');
    var tb := Slot(gs, Root(i, IND));
    assert tb != 0;
    OlderWins(fs, gs, added, x'.added, tb);
  }

  /** Both hang off one leaf. */
  lemma LostLeaf(fs: Fs, gs: Fs, i: nat, l: nat, l': nat, added: seq<Dirty>, x': Outcome)
    requires TwoMissing(fs, i, l, l') && Got(fs, gs, i, l, added) && PathOf(i, l).Leaf? && PathOf(i, l').Leaf? &&
      BlockOf(gs, i, l') == 0
    requires var p, p' := PathOf(i, l), PathOf(i, l');
      p.j == p'.j && Valid(gs, p) && !Avoids(added, Slot(gs, Dind(i, p.j))) &&
      if Slot(fs, Dind(i, p.j)) == 0 then !Avoids(added, Slot(gs, Root(i, DIND)))
      else Avoids(added, Slot(gs, Root(i, DIND))) && Avoids(x'.added, Slot(gs, Root(i, DIND)))
    requires HasInode(gs.inodes, fs.disk, i) && Harmless(gs.inodes, fs.disk, x', i)
    ensures Writable(x'.added + added, |fs.disk|) && Shaped(End(fs, added, x')) && i < |End(fs, added, x').inodes|
    ensures BlockOf(End(fs, added, x'), i, l) == BlockOf(gs, i, l) && BlockOf(End(fs, added, x'), i, l') == 0
  {
    var j := PathOf(i, l).j;
    EndShaped(fs, gs, i, added, x');
    var tb, lb := Slot(gs, Root(i, DIND)), Slot(gs, Dind(i, j));
    assert tb != 0 && lb != 0;
    OlderWins(fs, gs, added, x'.added, lb);
    if Slot(fs, Dind(i, j)) == 0 {
      OlderWins(fs, gs, added, x'.added, tb);
    } else {
      FlushedAvoids(fs.disk, x'.added + added, tb);
      FlushedAvoids(fs.disk, added, tb);
    }
  }

  /** They hang off two leaves, and both are new. */
  lemma LostLeaves(fs: Fs, gs: Fs, i: nat, l: nat, l': nat, added: seq<Dirty>, x': Outcome)
    requires TwoMissing(fs, i, l, l') && Got(fs, gs, i, l, added) && PathOf(i, l).Leaf? && PathOf(i, l').Leaf?
    requires var p, p' := PathOf(i, l), PathOf(i, l');
      p.j != p'.j && Valid(gs, p) && !Avoids(added, Slot(gs, Dind(i, p.j))) &&
      Slot(fs, Dind(i, p'.j)) == 0 && !Avoids(added, Slot(gs, Root(i, DIND)))
    requires HasInode(gs.inodes, fs.disk, i) && Harmless(gs.inodes, fs.disk, x', i)
    ensures Writable(x'.added + added, |fs.disk|) && Shaped(End(fs, added, x')) && i < |End(fs, added, x').inodes|
    ensures BlockOf(End(fs, added, x'), i, l) == BlockOf(gs, i, l) && BlockOf(End(fs, added, x'), i, l') == 0
  {
    var p, p' := PathOf(i, l), PathOf(i, l');
    EndShaped(fs, gs, i, added, x');
    var tb, lb := Slot(gs, Root(i, DIND)), Slot(gs, Dind(i, p.j));
    assert tb != 0 && lb != 0;
    OlderWins(fs, gs, added, x'.added, lb);
    OlderWins(fs, gs, added, x'.added, tb);
    assert !OnWay(Dind(i, p'.j), Root(i, DIND)) && !OnWay(Dind(i, p'.j), Dind(i, p.j));
    assert Slot(gs, Dind(i, p'.j)) == 0;
  }

  /** Where both hang off one leaf that is there already, the table above it is not on the list. */
  ghost predicate Untouched(fs: Fs, gs: Fs, i: nat, l: nat, l': nat, added: seq<Dirty>)
    requires Shaped(fs) && Shaped(gs) && i < |fs.inodes| && i < |gs.inodes| && l <= SECOND_STAGE && l' <= SECOND_STAGE
  {
    var p, p' := PathOf(i, l), PathOf(i, l');
    p.Leaf? && p'.Leaf? && p.j == p'.j && Slot(fs, Dind(i, p.j)) != 0 ==> Avoids(added, Slot(gs, Root(i, DIND)))
  }

  lemma FirstUntouched(fs: Fs, gs: Fs, i: nat, l: nat, l': nat)
    requires TwoMissing(fs, i, l, l') && Acquired(fs, gs, PathOf(i, l)) && HasInode(fs.inodes, fs.disk, i)
    ensures Untouched(fs, gs, i, l, l', Run(fs.inodes, fs.used, fs.disk, PathOf(i, l)).added)
  {
    var p := PathOf(i, l);
    if p.Leaf? && Slot(fs, Dind(i, p.j)) != 0 {
      assert Slot(gs, Root(i, DIND)) == Slot(fs, Root(i, DIND)) != Slot(fs, Dind(i, p.j));
      RunLeafOnly(fs.inodes, fs.used, fs.disk, p);
    }
  }

  lemma SecondUntouched(fs: Fs, gs: Fs, i: nat, l: nat, l': nat)
    requires TwoMissing(fs, i, l, l') && Acquired(fs, gs, PathOf(i, l)) && HasInode(gs.inodes, fs.disk, i)
    ensures Untouched(fs, gs, i, l, l', Run(gs.inodes, gs.used, fs.disk, PathOf(i, l')).added)
  {
    var p, p' := PathOf(i, l), PathOf(i, l');
    if p.Leaf? && p'.Leaf? && p.j == p'.j && Slot(fs, Dind(i, p.j)) != 0 {
      assert Slot(gs, Root(i, DIND)) == Slot(fs, Root(i, DIND)) != Slot(fs, Dind(i, p.j));
      RunLeafOnly(gs.inodes, gs.used, fs.disk, p');
    }
  }

  /** With its leaf in place, a slot leaves the table above alone. */
  lemma RunLeafOnly(inodes: seq<Inode>, used: seq<bool>, disk: seq<Words>, p: Path)
    requires p.Leaf? && HasInode(inodes, disk, p.i) && p.j < PTRS && p.m < PTRS && 0 < inodes[p.i].block[DIND] < |disk|
    requires var tb := inodes[p.i].block[DIND]; disk[tb][p.j] != 0 && disk[tb][p.j] != tb
    ensures Avoids(Run(inodes, used, disk, p).added, inodes[p.i].block[DIND])
  {}

  lemma SecondLost(fs: Fs, gs: Fs, i: nat, l: nat, l': nat, added: seq<Dirty>, x': Outcome)
    requires TwoMissing(fs, i, l, l') && Clash(fs, PathOf(i, l), PathOf(i, l')) && Got(fs, gs, i, l, added) &&
      BlockOf(gs, i, l') == 0
    requires HasInode(gs.inodes, fs.disk, i) && Harmless(gs.inodes, fs.disk, x', i)
    requires Named(fs, gs, PathOf(i, l), added) && Untouched(fs, gs, i, l, l', added) &&
      Untouched(fs, gs, i, l, l', x'.added)
    ensures Writable(x'.added + added, |fs.disk|) && Fate(fs, End(fs, added, x'), i, l, l', BlockOf(gs, i, l), x'.r)
  {
    var p, p' := PathOf(i, l), PathOf(i, l');
    ClashExactly(fs, i, l, l');
    if p.Ind? {
      LostIndirect(fs, gs, i, l, l', added, x');
    } else if p.j == p'.j {
      LostLeaf(fs, gs, i, l, l', added, x');
    } else {
      LostLeaves(fs, gs, i, l, l', added, x');
    }
    assert Slot(gs, p) != 0;
  }

  // ---- the two calls ----

  /** The first block is mapped. The second is mapped exactly when no table is written for both, and then nothing else
      has changed. */
  ghost predicate Fate(fs: Fs, end: Fs, i: nat, l: nat, l': nat, r: int, r': int)
    requires TwoMissing(fs, i, l, l')
  {
    && Shaped(end) && i < |end.inodes| && BlockOf(end, i, l) == r != 0
    && (BlockOf(end, i, l') != 0 <==> !Clash(fs, PathOf(i, l), PathOf(i, l')))
    && (!Clash(fs, PathOf(i, l), PathOf(i, l')) ==> OnlyMapsBoth(fs, end, i, l, l') && BlockOf(end, i, l') == r')
  }

  /** Two calls and a flush. */
  method AcquireTwice(e: Ext3, i: nat, l: nat, l': nat) returns (r: int, r': int)
    requires TwoMissing(e.View(), i, l, l') && e.dirty == []
    modifies e`inodes, e`disk, e`dirty, e`superFree, e`groupFree, e.bitmap
    ensures Fate(old(e.View()), e.View(), i, l, l', r, r')
    ensures e.dirty == [] && e.Drift() == old(e.Drift())
  {
    ghost var fs := e.View();
    ghost var x, x' := BothCalls(fs, i, l, l');
    r, r' := EnsureTwo(e, i, l, l', x);
    FlushTwo(e, x.added, x');
  }

  method EnsureTwo(e: Ext3, i: nat, l: nat, l': nat, ghost x: Outcome) returns (r: int, r': int)
    requires HasInode(e.inodes, e.disk, i) && e.dirty == [] && l <= SECOND_STAGE && l' <= SECOND_STAGE
    requires RunOk(e.inodes, e.Bits(), e.disk, PathOf(i, l)) && x == Run(e.inodes, e.Bits(), e.disk, PathOf(i, l))
    requires HasInode(x.inodes, e.disk, i) && RunOk(x.inodes, x.used, e.disk, PathOf(i, l'))
    requires |e.Bits()| == |x.used| > 0 && e.Bits()[0] && x.used[0]
    modifies e`inodes, e`dirty, e`superFree, e`groupFree, e.bitmap
    ensures var x' := Run(x.inodes, x.used, e.disk, PathOf(i, l')); e.Holds(x', x.added) && r == x.r && r' == x'.r
    ensures e.Drift() == old(e.Drift())
  {
    r := e.EnsureBlock(i, l);
    NothingBefore(x.added);
    r' := e.EnsureBlock(i, l');
  }

  /** What the two calls compute, and what the flush makes of it. */
  lemma BothCalls(fs: Fs, i: nat, l: nat, l': nat) returns (x: Outcome, x': Outcome)
    requires TwoMissing(fs, i, l, l')
    ensures HasInode(fs.inodes, fs.disk, i) && RunOk(fs.inodes, fs.used, fs.disk, PathOf(i, l)) &&
      x == Run(fs.inodes, fs.used, fs.disk, PathOf(i, l))
    ensures HasInode(x.inodes, fs.disk, i) && RunOk(x.inodes, x.used, fs.disk, PathOf(i, l')) &&
      x' == Run(x.inodes, x.used, fs.disk, PathOf(i, l'))
    ensures Writable(x'.added + x.added, |fs.disk|) && Fate(fs, End(fs, x.added, x'), i, l, l', x.r, x'.r)
    ensures |x.used| == |fs.used| > 0 && fs.used[0] && x.used[0]
  {
    x := FirstKnown(fs, i, l, l');
    x' := SecondCall(fs, Acquire(fs, PathOf(i, l)), i, l, l', x.added);
  }

  lemma FirstKnown(fs: Fs, i: nat, l: nat, l': nat) returns (x: Outcome)
    requires TwoMissing(fs, i, l, l')
    ensures HasInode(fs.inodes, fs.disk, i) && RunOk(fs.inodes, fs.used, fs.disk, PathOf(i, l)) &&
      x == Run(fs.inodes, fs.used, fs.disk, PathOf(i, l))
    ensures var gs := Acquire(fs, PathOf(i, l));
      Got(fs, gs, i, l, x.added) && x.inodes == gs.inodes && x.used == gs.used && x.r == BlockOf(gs, i, l) != 0 &&
      BlockOf(gs, i, l') == 0 &&
      Named(fs, gs, PathOf(i, l), x.added) && Untouched(fs, gs, i, l, l', x.added)
  {
    FirstCall(fs, i, l, l');
    RunNames(fs, PathOf(i, l));
    FirstUntouched(fs, Acquire(fs, PathOf(i, l)), i, l, l');
    x := Run(fs.inodes, fs.used, fs.disk, PathOf(i, l));
  }

  lemma SecondCall(fs: Fs, gs: Fs, i: nat, l: nat, l': nat, added: seq<Dirty>) returns (x': Outcome)
    requires TwoMissing(fs, i, l, l') && Got(fs, gs, i, l, added) && BlockOf(gs, i, l') == 0 && BlockOf(gs, i, l) != 0
    requires Named(fs, gs, PathOf(i, l), added) && Untouched(fs, gs, i, l, l', added)
    ensures HasInode(gs.inodes, fs.disk, i) && RunOk(gs.inodes, gs.used, fs.disk, PathOf(i, l')) &&
      x' == Run(gs.inodes, gs.used, fs.disk, PathOf(i, l'))
    ensures Writable(x'.added + added, |fs.disk|) && Fate(fs, End(fs, added, x'), i, l, l', BlockOf(gs, i, l), x'.r)
  {
    SecondRuns(fs, gs, i, l, l', added);
    FollowableRuns(gs.inodes, gs.used, fs.disk, PathOf(i, l'));
    x' := Run(gs.inodes, gs.used, fs.disk, PathOf(i, l'));
    if Clash(fs, PathOf(i, l), PathOf(i, l')) {
      SecondUntouched(fs, gs, i, l, l');
      SecondLost(fs, gs, i, l, l', added, x');
    } else {
      SecondApart(fs, gs, i, l, l', added);
    }
  }

  /** ext3_flush when the list holds what two calls put there. */
  method FlushTwo(e: Ext3, ghost added: seq<Dirty>, ghost x': Outcome)
    requires e.Holds(x', added) && Writable(x'.added + added, |e.disk|)
    modifies e`disk, e`dirty
    ensures e.View() == Fs(x'.inodes, Flushed(old(e.disk), x'.added + added), x'.used) && e.dirty == [] &&
      e.Drift() == old(e.Drift())
  {
    e.Flush();
  }

  // ---- a small disk ----

  /** Inode 0 has an indirect table in block 1; blocks 2 to 9 are free. */
  function Small(): Fs
  {
    Fs([Inode([0, 0, 0, 0, 0, 0, 0, 0, 0, 0, 0, 0, 1, 0, 0], 0, 0)], seq(10, b => Zeros()),
       [true, true, false, false, false, false, false, false, false, false])
  }

  lemma SmallSlots(p: Path)
    requires Shaped(Small()) && Valid(Small(), p)
    ensures Slot(Small(), p) == if p == Root(0, IND) then 1 else 0
  {}

  /** Its logical blocks 12 and 13 are missing, and the second of them is lost. */
  lemma SmallLoses()
    ensures TwoMissing(Small(), 0, 12, 13) && Clash(Small(), PathOf(0, 12), PathOf(0, 13))
    ensures TwoMissing(Small(), 0, 12, 1036) && !Clash(Small(), PathOf(0, 12), PathOf(0, 1036))
  {
    var fs := Small();
    assert Shaped(fs);
    forall p | Valid(fs, p) ensures Slot(fs, p) == if p == Root(0, IND) then 1 else 0 { SmallSlots(p); }
    assert FreeCount(fs.used) == 8;
    NeedBounded(fs, PathOf(0, 12));
    ClashExactly(fs, 0, 12, 13);
    ClashExactly(fs, 0, 12, 1036);
  }
}
