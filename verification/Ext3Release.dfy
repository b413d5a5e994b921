/** ext3_free_block and ext3_release_inode_blocks of ext3fs.c. */
module Ext3Release {
  import opened Digits
  import opened Ext3Map
  import opened Ext3Ensure
  import opened Ext3Blocks

  // ---- what an inode owns ----

  /** Block b hangs off some slot of inode i. */
  ghost predicate Reaches(fs: Fs, i: nat, b: int)
    requires Shaped(fs)
  {
    exists q {:trigger Slot(fs, q)} :: Valid(fs, q) && q.i == i && Slot(fs, q) == b
  }

  ghost function Entries(t: Words): set<int> { set x | x in t && x != 0 }

  /** The leaves named by the first n entries of a table, with everything they name. */
  ghost function Leaves(disk: seq<Words>, table: Words, n: nat): set<int>
    requires n <= |table|
  {
    if n == 0 then {}
    else Leaves(disk, table, n - 1) + LeafSet(disk, table[n - 1])
  }

  ghost function LeafSet(disk: seq<Words>, b: int): set<int>
  {
    if 0 < b < |disk| then Entries(disk[b]) + {b} else {}
  }

  ghost function DoubleSet(disk: seq<Words>, b: int): set<int>
  {
    if 0 < b < |disk| then Leaves(disk, disk[b], |disk[b]|) + {b} else {}
  }

  ghost function Owned(fs: Fs, i: nat): set<int>
    requires Shaped(fs) && i < |fs.inodes|
  {
    var block := fs.inodes[i].block;
    Entries(block[..IND]) + LeafSet(fs.disk, block[IND]) + DoubleSet(fs.disk, block[DIND])
  }

  lemma {:induction false} LeavesIff(disk: seq<Words>, table: Words, n: nat, b: int)
    requires n <= |table|
    ensures b in Leaves(disk, table, n) <==> exists j :: 0 <= j < n && b in LeafSet(disk, table[j])
  {
    if n > 0 { LeavesIff(disk, table, n - 1, b); }
  }

  lemma LeafSetReached(fs: Fs, p: Path, b: int)
    requires Inv(fs) && Valid(fs, p) && IsTable(p) && b in LeafSet(fs.disk, Slot(fs, p))
    ensures b != 0 && Reaches(fs, p.i, b)
  {
    var t := Slot(fs, p);
    if b == t {
      assert Slot(fs, p) == b;
    } else {
      var j :| 0 <= j < PTRS && fs.disk[t][j] == b;
      assert Valid(fs, Child(p, j)) && Slot(fs, Child(p, j)) == b && Child(p, j).i == p.i;
    }
  }

  lemma OwnedReached(fs: Fs, i: nat, b: int)
    requires Inv(fs) && i < |fs.inodes| && b in Owned(fs, i)
    ensures b != 0 && Reaches(fs, i, b)
  {
    var block := fs.inodes[i].block;
    assert Slot(fs, Root(i, DIND)) == block[DIND] && Slot(fs, Root(i, IND)) == block[IND];
    if b in Entries(block[..IND]) {
      var k :| 0 <= k < IND && block[k] == b;
      assert Slot(fs, Root(i, k)) == b && Valid(fs, Root(i, k));
    } else if b in LeafSet(fs.disk, block[IND]) {
      LeafSetReached(fs, Root(i, IND), b);
    } else if b == block[DIND] {
      assert Valid(fs, Root(i, DIND));
    } else {
      var t := block[DIND];
      LeavesIff(fs.disk, fs.disk[t], PTRS, b);
      var j :| 0 <= j < PTRS && b in LeafSet(fs.disk, fs.disk[t][j]);
      assert Slot(fs, Dind(i, j)) == fs.disk[t][j];
      LeafSetReached(fs, Dind(i, j), b);
    }
  }

  lemma SlotOwned(fs: Fs, q: Path)
    requires Inv(fs) && Valid(fs, q) && Slot(fs, q) != 0
    ensures Slot(fs, q) in Owned(fs, q.i)
  {
    var block, b := fs.inodes[q.i].block, Slot(fs, q);
    assert Slot(fs, Root(q.i, DIND)) == block[DIND] && Slot(fs, Root(q.i, IND)) == block[IND];
    match q
    case Root(i, k) => if k < IND { assert block[..IND][k] == b; }
    case Ind(i, j) => assert b in fs.disk[block[IND]];
    case Dind(i, j) => LeavesIff(fs.disk, fs.disk[block[DIND]], PTRS, b);
    case Leaf(i, j, m) =>
      assert b in fs.disk[Slot(fs, Dind(i, j))];
      LeavesIff(fs.disk, fs.disk[block[DIND]], PTRS, b);
  }

  /** An inode owns exactly the blocks its slots reach: data, tables and leaves. */
  lemma OwnedIff(fs: Fs, i: nat, b: int)
    requires Inv(fs) && i < |fs.inodes|
    ensures b in Owned(fs, i) <==> b != 0 && Reaches(fs, i, b)
  {
    if b in Owned(fs, i) { OwnedReached(fs, i, b); }
    if b != 0 && Reaches(fs, i, b) {
      var q :| Valid(fs, q) && q.i == i && Slot(fs, q) == b;
      SlotOwned(fs, q);
    }
  }

  // ---- releasing ----

  /** now is was with exactly the bits of s cleared. */
  ghost predicate Cleared(was: seq<bool>, now: seq<bool>, s: set<int>)
  {
    |now| == |was| && forall b :: 0 <= b < |was| ==> now[b] == (was[b] && b !in s)
  }

  lemma ClearedTwice(a: seq<bool>, b: seq<bool>, c: seq<bool>, s: set<int>, t: set<int>)
    requires Cleared(a, b, s) && Cleared(b, c, t)
    ensures Cleared(a, c, s + t)
  {}

  ghost predicate InRange(t: Words, n: int)
  {
    forall j :: 0 <= j < |t| ==> 0 <= t[j] < n
  }

  /** ext3_free_block. */
  method FreeBlock(e: Ext3, b: nat)
    requires b < |e.Bits()|
    modifies e`superFree, e`groupFree, e.bitmap
    ensures Cleared(old(e.Bits()), e.Bits(), Entries([b])) && e.Drift() == old(e.Drift())
  {
    assert b in [b];
    if b == 0 { return; }
    if !Bit(e.bitmap[b / 8], b % 8) { return; }
    ghost var n := FreeCount(e.Bits());
    FreeCountUpdate(e.Bits(), b, false);
    GapStep(e.superFree, n, 0x1_0000_0000, 1);
    GapStep(e.groupFree, n, 0x1_0000, 1);
    e.ClearBitmap(b);
    e.superFree := (e.superFree + 1) % 0x1_0000_0000;
    e.groupFree := (e.groupFree + 1) % 0x1_0000;
  }

  lemma EntriesSnoc(t: Words, n: nat)
    requires n < |t|
    ensures Entries(t[..n]) + Entries([t[n]]) == Entries(t[..n + 1])
  {
    assert t[..n + 1] == t[..n] + [t[n]];
  }

  /** The loops over a table that free each block it names. */
  method FreeEntries(e: Ext3, t: Words)
    requires InRange(t, |e.Bits()|)
    modifies e`superFree, e`groupFree, e.bitmap
    ensures Cleared(old(e.Bits()), e.Bits(), Entries(t)) && e.Drift() == old(e.Drift())
  {
    var k := 0;
    while k < |t|
      invariant 0 <= k <= |t| && Cleared(old(e.Bits()), e.Bits(), Entries(t[..k])) && e.Drift() == old(e.Drift())
    {
      ghost var mid := e.Bits();
      if t[k] != 0 { FreeBlock(e, t[k]); }
      ClearedTwice(old(e.Bits()), mid, e.Bits(), Entries(t[..k]), Entries([t[k]]));
      EntriesSnoc(t, k);
      k := k + 1;
    }
    assert t[..k] == t;
  }

  /** Everything a table names, then the table's own block. */
  method FreeTable(e: Ext3, b: nat)
    requires 0 < b < |e.disk| == |e.Bits()| && InRange(e.disk[b], |e.disk|)
    modifies e`superFree, e`groupFree, e.bitmap
    ensures Cleared(old(e.Bits()), e.Bits(), LeafSet(e.disk, b)) && e.Drift() == old(e.Drift())
  {
    FreeEntries(e, e.disk[b]);
    ghost var mid := e.Bits();
    FreeBlock(e, b);
    ClearedTwice(old(e.Bits()), mid, e.Bits(), Entries(e.disk[b]), Entries([b]));
    assert b in [b] && Entries([b]) == {b};
  }

  /** The tables of a double-indirect table are themselves fit to be freed. */
  ghost predicate LeavesInRange(disk: seq<Words>, t: Words)
  {
    forall j :: 0 <= j < |t| ==> FitToFree(disk, t[j])
  }

  ghost predicate FitToFree(disk: seq<Words>, b: int)
  {
    b == 0 || (0 < b < |disk| && InRange(disk[b], |disk|))
  }

  method FreeLeaf(e: Ext3, b: nat, ghost was: seq<bool>, ghost s: set<int>)
    requires |e.disk| == |e.Bits()| && FitToFree(e.disk, b) && Cleared(was, e.Bits(), s)
    modifies e`superFree, e`groupFree, e.bitmap
    ensures Cleared(was, e.Bits(), s + LeafSet(e.disk, b)) && e.Drift() == old(e.Drift())
  {
    if b != 0 { FreeTable(e, b); }
    ClearedTwice(was, old(e.Bits()), e.Bits(), s, LeafSet(e.disk, b));
  }

  /** Each leaf of a double-indirect table with what it names. */
  method FreeLeaves(e: Ext3, t: Words)
    requires |e.disk| == |e.Bits()| && LeavesInRange(e.disk, t)
    modifies e`superFree, e`groupFree, e.bitmap
    ensures Cleared(old(e.Bits()), e.Bits(), Leaves(e.disk, t, |t|)) && e.Drift() == old(e.Drift())
  {
    var k := 0;
    while k < |t|
      invariant 0 <= k <= |t| && Cleared(old(e.Bits()), e.Bits(), Leaves(e.disk, t, k)) && e.Drift() == old(e.Drift())
    {
      FreeLeaf(e, t[k], old(e.Bits()), Leaves(e.disk, t, k));
      k := k + 1;
    }
  }

  method FreeDouble(e: Ext3, b: nat)
    requires 0 < b < |e.disk| == |e.Bits()| && LeavesInRange(e.disk, e.disk[b])
    modifies e`superFree, e`groupFree, e.bitmap
    ensures Cleared(old(e.Bits()), e.Bits(), DoubleSet(e.disk, b)) && e.Drift() == old(e.Drift())
  {
    FreeLeaves(e, e.disk[b]);
    ghost var mid := e.Bits();
    FreeBlock(e, b);
    ClearedTwice(old(e.Bits()), mid, e.Bits(), Leaves(e.disk, e.disk[b], |e.disk[b]|), Entries([b]));
    assert b in [b] && Entries([b]) == {b};
  }

  lemma TableInRange(fs: Fs, p: Path)
    requires Inv(fs) && Valid(fs, p) && IsTable(p) && Slot(fs, p) != 0
    ensures 0 < Slot(fs, p) < |fs.disk| && InRange(fs.disk[Slot(fs, p)], |fs.disk|)
  {
    var t := fs.disk[Slot(fs, p)];
    forall j | 0 <= j < |t| ensures 0 <= t[j] < |fs.disk| {
      assert Valid(fs, Child(p, j)) && Slot(fs, Child(p, j)) == t[j];
    }
  }

  lemma DoubleInRange(fs: Fs, i: nat)
    requires Inv(fs) && i < |fs.inodes| && fs.inodes[i].block[DIND] != 0
    ensures var b := fs.inodes[i].block[DIND]; 0 < b < |fs.disk| && LeavesInRange(fs.disk, fs.disk[b])
  {
    assert Slot(fs, Root(i, DIND)) == fs.inodes[i].block[DIND];
    TableInRange(fs, Root(i, DIND));
    var t := fs.disk[fs.inodes[i].block[DIND]];
    forall j | 0 <= j < |t| && t[j] != 0 ensures FitToFree(fs.disk, t[j]) {
      assert Slot(fs, Dind(i, j)) == t[j];
      TableInRange(fs, Dind(i, j));
    }
  }

  /** The inode afterwards: no block, no bytes. Slot 14 is not touched. */
  ghost predicate Emptied(was: Inode, now: Inode)
  {
    && |was.block| == |now.block| == 15 && now.size == 0 && now.nblocks == 0 && now.block[14] == was.block[14]
    && forall k :: 0 <= k <= DIND ==> now.block[k] == 0
  }

  /** The loop over the direct slots. */
  method FreeDirect(e: Ext3, i: nat)
    requires i < |e.inodes| && |e.inodes[i].block| == 15 && InRange(e.inodes[i].block[..IND], |e.Bits()|)
    modifies e`inodes, e`superFree, e`groupFree, e.bitmap
    ensures Cleared(old(e.Bits()), e.Bits(), Entries(old(e.inodes)[i].block[..IND])) && e.Drift() == old(e.Drift())
    ensures |e.inodes| == |old(e.inodes)| && |e.inodes[i].block| == 15 &&
      e.inodes == old(e.inodes)[i := old(e.inodes)[i].(block := e.inodes[i].block)]
    ensures forall k :: 0 <= k < 15 ==> e.inodes[i].block[k] == if k < IND then 0 else old(e.inodes)[i].block[k]
  {
    ghost var was := e.inodes[i].block;
    var k := 0;
    while k < IND
      invariant 0 <= k <= IND && |e.inodes| == |old(e.inodes)| && |e.inodes[i].block| == 15
      invariant e.inodes == old(e.inodes)[i := old(e.inodes)[i].(block := e.inodes[i].block)]
      invariant forall j :: 0 <= j < 15 ==> e.inodes[i].block[j] == if j < k then 0 else was[j]
      invariant Cleared(old(e.Bits()), e.Bits(), Entries(was[..k])) && e.Drift() == old(e.Drift())
    {
      ghost var mid := e.Bits();
      var b := e.inodes[i].block[k];
      assert b == was[..IND][k];
      if b != 0 {
        FreeBlock(e, b);
        e.inodes := e.inodes[i := e.inodes[i].(block := e.inodes[i].block[k := 0])];
      }
      ClearedTwice(old(e.Bits()), mid, e.Bits(), Entries(was[..k]), Entries([was[k]]));
      EntriesSnoc(was, k);
      k := k + 1;
    }
  }

  /** The released state: inode i emptied, exactly its blocks cleared, nothing else changed. */
  ghost predicate Released(fs: Fs, gs: Fs, i: nat)
    requires Shaped(fs) && i < |fs.inodes|
  {
    && gs.disk == fs.disk && |gs.inodes| == |fs.inodes| && Emptied(fs.inodes[i], gs.inodes[i])
    && (forall i' :: 0 <= i' < |fs.inodes| && i' != i ==> gs.inodes[i'] == fs.inodes[i'])
    && Cleared(fs.used, gs.used, Owned(fs, i))
  }

  /** ext3_release_inode_blocks. */
  method Release(e: Ext3, i: nat)
    requires Inv(e.View()) && i < |e.inodes|
    modifies e`inodes, e`superFree, e`groupFree, e.bitmap
    ensures Released(old(e.View()), e.View(), i) && Inv(e.View()) && e.Drift() == old(e.Drift())
  {
    ghost var fs := e.View();
    DirectInRange(fs, i);
    FreeDirect(e, i);
    ghost var bits := e.Bits();
    FreeIndirect(e, i, fs);
    ghost var bits' := e.Bits();
    if e.inodes[i].block[DIND] != 0 {
      DoubleInRange(fs, i);
      FreeDouble(e, e.inodes[i].block[DIND]);
      e.inodes := e.inodes[i := e.inodes[i].(block := e.inodes[i].block[DIND := 0])];
    }
    e.inodes := e.inodes[i := e.inodes[i].(size := 0, nblocks := 0)];
    ThreeParts(fs, i, bits, bits', e.Bits());
    ReleasedKeepsInv(fs, e.View(), i);
  }

  /** The single-indirect part. */
  method FreeIndirect(e: Ext3, i: nat, ghost fs: Fs)
    requires Inv(fs) && i < |e.inodes| == |fs.inodes| && e.disk == fs.disk && |e.Bits()| == |fs.disk|
    requires |e.inodes[i].block| == 15 && e.inodes[i].block[IND] == fs.inodes[i].block[IND]
    modifies e`inodes, e`superFree, e`groupFree, e.bitmap
    ensures Cleared(old(e.Bits()), e.Bits(), LeafSet(fs.disk, fs.inodes[i].block[IND])) && e.Drift() == old(e.Drift())
    ensures e.inodes == old(e.inodes)[i := old(e.inodes)[i].(block := old(e.inodes)[i].block[IND := 0])]
  {
    var b := e.inodes[i].block[IND];
    if b != 0 {
      assert Slot(fs, Root(i, IND)) == b;
      TableInRange(fs, Root(i, IND));
      FreeTable(e, b);
    }
    e.inodes := e.inodes[i := e.inodes[i].(block := e.inodes[i].block[IND := 0])];
  }

  lemma DirectInRange(fs: Fs, i: nat)
    requires Inv(fs) && i < |fs.inodes|
    ensures InRange(fs.inodes[i].block[..IND], |fs.used|)
  {
    var t := fs.inodes[i].block[..IND];
    forall k | 0 <= k < IND ensures 0 <= t[k] < |fs.used| { assert Slot(fs, Root(i, k)) == t[k]; }
  }

  lemma ThreeParts(fs: Fs, i: nat, a: seq<bool>, b: seq<bool>, c: seq<bool>)
    requires Shaped(fs) && i < |fs.inodes|
    requires var block := fs.inodes[i].block;
      Cleared(fs.used, a, Entries(block[..IND])) && Cleared(a, b, LeafSet(fs.disk, block[IND])) &&
      Cleared(b, c, DoubleSet(fs.disk, block[DIND]))
    ensures Cleared(fs.used, c, Owned(fs, i))
  {
    var block := fs.inodes[i].block;
    ClearedTwice(fs.used, a, b, Entries(block[..IND]), LeafSet(fs.disk, block[IND]));
    ClearedTwice(fs.used, b, c, Entries(block[..IND]) + LeafSet(fs.disk, block[IND]), DoubleSet(fs.disk, block[DIND]));
  }

  /** Slots of the released inode read as empty, those of every other inode as before. */
  lemma ReleasedSlot(fs: Fs, gs: Fs, i: nat, q: Path)
    requires Inv(fs) && i < |fs.inodes| && Released(fs, gs, i) && Valid(fs, q)
    ensures Shaped(gs) && Valid(gs, q) && Slot(gs, q) == if q.i == i then 0 else Slot(fs, q)
    ensures Slot(gs, q) != 0 ==> 0 < Slot(gs, q) < |gs.disk| && gs.used[Slot(gs, q)]
  {
    if q.i != i && Slot(fs, q) != 0 {
      var b := Slot(fs, q);
      OwnedIff(fs, i, b);
    }
  }

  /** Releasing keeps the block map consistent: no other inode loses a block. */
  lemma ReleasedKeepsInv(fs: Fs, gs: Fs, i: nat)
    requires Inv(fs) && i < |fs.inodes| && Released(fs, gs, i)
    ensures Inv(gs)
  {
    if 0 in Owned(fs, i) { OwnedReached(fs, i, 0); }
    ReleasedSlot(fs, gs, i, Root(i, 0));
    forall q | Valid(gs, q) ensures Slot(gs, q) == (if q.i == i then 0 else Slot(fs, q)) &&
      (Slot(gs, q) != 0 ==> 0 < Slot(gs, q) < |gs.disk| && gs.used[Slot(gs, q)])
    {
      ReleasedSlot(fs, gs, i, q);
    }
    forall q, q' | Valid(gs, q) && Valid(gs, q') && Slot(gs, q) != 0 && Slot(gs, q) == Slot(gs, q') ensures q == q' {
      assert Slot(fs, q) == Slot(fs, q');
    }
  }

  /** Over a release, a bit is cleared exactly if the inode reached the block; every other inode maps what it did. */
  lemma ReleasedExactly(fs: Fs, gs: Fs, i: nat, b: int, i': nat, l: int)
    requires Inv(fs) && i < |fs.inodes| && Released(fs, gs, i) && Inv(gs) && 0 < b < |fs.used| && i' < |fs.inodes|
    ensures gs.used[b] <==> fs.used[b] && !Reaches(fs, i, b)
    ensures BlockOf(gs, i', l) == if i' == i then 0 else BlockOf(fs, i', l)
  {
    OwnedIff(fs, i, b);
    if 0 <= l <= SECOND_STAGE {
      PathOfValid(fs, i', l);
      ReleasedSlot(fs, gs, i, PathOf(i', l));
    }
  }
}
