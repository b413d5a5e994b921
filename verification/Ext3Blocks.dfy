/** The bitmap helpers, ext3_inode_get_block, ext3_inode_ensure_block and ext3_flush of
    ext3fs.c, with the write-back list of dirty blocks. */
module Ext3Blocks {
  import opened Ext3Map
  import opened Ext3Ensure
  import opened Digits

  // ---- bits ----

  function Mask(k: nat): bv8
    requires k < 8
  {
    (1 as bv8) << k
  }

  function Bit(a: bv8, k: nat): bool
    requires k < 8
  {
    a & Mask(k) != 0
  }

  lemma SetOneBit(a: bv8, k: nat, j: nat)
    requires k < 8 && j < 8
    ensures Bit(a | Mask(k), j) == (j == k || Bit(a, j))
  {}

  lemma ClearOneBit(a: bv8, k: nat, j: nat)
    requires k < 8 && j < 8
    ensures Bit(a & !Mask(k), j) == (j != k && Bit(a, j))
  {}

  /** The bits of a bitmap, in the order __get_free_bitmap visits them. */
  ghost function BitsOf(bytes: seq<bv8>): (r: seq<bool>)
    ensures |r| == 8 * |bytes|
  {
    seq(8 * |bytes|, b requires 0 <= b < 8 * |bytes| => BitAt(bytes, b))
  }

  ghost predicate BitAt(bytes: seq<bv8>, b: nat)
    requires b < 8 * |bytes|
  {
    Bit(bytes[b / 8], b % 8)
  }

  lemma SetBit(bytes: seq<bv8>, b: nat, k: nat)
    requires b < 8 * |bytes| && k < 8 * |bytes|
    ensures BitAt(bytes[b / 8 := bytes[b / 8] | Mask(b % 8)], k) == (k == b || BitAt(bytes, k))
  {
    if k / 8 == b / 8 { SetOneBit(bytes[b / 8], b % 8, k % 8); }
  }

  lemma ClearBit(bytes: seq<bv8>, b: nat, k: nat)
    requires b < 8 * |bytes| && k < 8 * |bytes|
    ensures BitAt(bytes[b / 8 := bytes[b / 8] & !Mask(b % 8)], k) == (k != b && BitAt(bytes, k))
  {
    if k / 8 == b / 8 { ClearOneBit(bytes[b / 8], b % 8, k % 8); }
  }

  lemma BitSet(bytes: seq<bv8>, b: nat)
    requires b < 8 * |bytes|
    ensures BitsOf(bytes[b / 8 := bytes[b / 8] | Mask(b % 8)]) == BitsOf(bytes)[b := true]
  {
    var bytes' := bytes[b / 8 := bytes[b / 8] | Mask(b % 8)];
    forall k: nat | k < 8 * |bytes| ensures BitsOf(bytes')[k] == BitsOf(bytes)[b := true][k] { SetBit(bytes, b, k); }
  }

  lemma BitCleared(bytes: seq<bv8>, b: nat)
    requires b < 8 * |bytes|
    ensures BitsOf(bytes[b / 8 := bytes[b / 8] & !Mask(b % 8)]) == BitsOf(bytes)[b := false]
  {
    var bytes' := bytes[b / 8 := bytes[b / 8] & !Mask(b % 8)];
    forall k: nat | k < 8 * |bytes| ensures BitsOf(bytes')[k] == BitsOf(bytes)[b := false][k] { ClearBit(bytes, b, k); }
  }

  /** A counter less the number it counts, in the counter's width. */
  ghost function Gap(counter: int, n: int, width: int): int
    requires width > 0
  {
    (counter - n) % width
  }

  lemma GapStep(counter: int, n: int, width: int, d: int)
    requires width > 0
    ensures Gap((counter + d) % width, n + d, width) == Gap(counter, n, width)
  {
    var c := (counter + d) % width;
    assert c == counter + d - width * ((counter + d) / width);
    ModAddMultiple(c - n - d, (counter + d) / width, width);
  }

  /** The tables ext3_inode_get_block reads for logical block l lie on the disk. */
  ghost predicate Findable(fs: Fs, i: nat, l: int)
    requires Shaped(fs) && i < |fs.inodes|
  {
    && (ZERO_STAGE < l <= FIRST_STAGE ==> 0 <= fs.inodes[i].block[IND] < |fs.disk|)
    && (FIRST_STAGE < l <= SECOND_STAGE ==>
          && 0 <= fs.inodes[i].block[DIND] < |fs.disk|
          && var t := fs.inodes[i].block[DIND];
             t != 0 ==> 0 <= fs.disk[t][(l - FIRST_STAGE - 1) / PTRS] < |fs.disk|)
  }

  lemma InvFindable(fs: Fs, i: nat, l: int)
    requires Inv(fs) && i < |fs.inodes|
    ensures Findable(fs, i, l)
  {
    assert fs.inodes[i].block[IND] == Slot(fs, Root(i, IND)) && fs.inodes[i].block[DIND] == Slot(fs, Root(i, DIND));
    if FIRST_STAGE < l <= SECOND_STAGE && fs.inodes[i].block[DIND] != 0 {
      var j: nat := (l - FIRST_STAGE - 1) / PTRS;
      assert Valid(fs, Dind(i, j)) && Slot(fs, Dind(i, j)) == fs.disk[fs.inodes[i].block[DIND]][j];
    }
  }

  lemma Regroup(a: seq<Dirty>, b: seq<Dirty>, rest: seq<Dirty>)
    ensures a + (b + rest) == (a + (b + [])) + rest && [] + rest == rest && b + [] == b
  {}

  class Ext3 {
    const bitmap: array<bv8>
    var inodes: seq<Inode>
    var disk: seq<Words>
    var dirty: seq<Dirty>
    var superFree: int      // s_free_blocks_count, 32 bits
    var groupFree: int      // bg_free_blocks_count, 16 bits

    ghost function Bits(): (r: seq<bool>)
      reads bitmap
      ensures |r| == 8 * bitmap.Length
    {
      BitsOf(bitmap[..])
    }

    ghost function View(): Fs
      reads `inodes, `disk, bitmap
    {
      Fs(inodes, disk, Bits())
    }

    /** The free counters less the clear bits of the bitmap, in the counters' widths. */
    ghost function Drift(): (int, int)
      reads `superFree, `groupFree, bitmap
    {
      (Gap(superFree, FreeCount(Bits()), 0x1_0000_0000), Gap(groupFree, FreeCount(Bits()), 0x1_0000))
    }

    /** __set_bitmap */
    method SetBitmap(b: nat)
      requires b < 8 * bitmap.Length
      modifies bitmap
      ensures Bits() == old(Bits())[b := true]
    {
      BitSet(bitmap[..], b);
      ghost var bytes := bitmap[..];
      bitmap[b / 8] := bitmap[b / 8] | Mask(b % 8);
      assert bitmap[..] == bytes[b / 8 := bytes[b / 8] | Mask(b % 8)];
    }

    /** __clear_bitmap */
    method ClearBitmap(b: nat)
      requires b < 8 * bitmap.Length
      modifies bitmap
      ensures Bits() == old(Bits())[b := false]
    {
      BitCleared(bitmap[..], b);
      ghost var bytes := bitmap[..];
      bitmap[b / 8] := bitmap[b / 8] & !Mask(b % 8);
      assert bitmap[..] == bytes[b / 8 := bytes[b / 8] & !Mask(b % 8)];
    }

    /** __get_free_bitmap: the first clear bit, or -1. */
    method GetFreeBitmap() returns (bit: int)
      ensures bit == if FirstFree(Bits()) < |Bits()| then FirstFree(Bits()) else -1
    {
      bit := 0;
      while bit < 8 * bitmap.Length
        invariant 0 <= bit <= 8 * bitmap.Length
        invariant forall k :: 0 <= k < bit ==> Bits()[k]
      {
        assert Bits()[bit] == BitAt(bitmap[..], bit);
        if !Bit(bitmap[bit / 8], bit % 8) { return; }
        bit := bit + 1;
      }
      bit := -1;
    }

    /** __alloc_block. The demand: the bitmap is not full. */
    method AllocBlock() returns (b: int)
      requires FreeCount(Bits()) > 0
      modifies `superFree, `groupFree, bitmap
      ensures b == FirstFree(old(Bits())) < |Bits()| && Bits() == old(Bits())[b := true]
      ensures Drift() == old(Drift())
    {
      ghost var n := FreeCount(Bits());
      GapStep(superFree, n, 0x1_0000_0000, -1);
      GapStep(groupFree, n, 0x1_0000, -1);
      superFree := (superFree - 1) % 0x1_0000_0000;
      groupFree := (groupFree - 1) % 0x1_0000;
      FreeExists(Bits());
      b := GetFreeBitmap();
      FreeCountUpdate(Bits(), b, true);
      SetBitmap(b);
    }

    /** ext3_inode_get_block. The tables read must lie on the disk. */
    method GetBlock(i: nat, l: int) returns (r: int)
      requires Shaped(View()) && i < |inodes| && Findable(View(), i, l)
      ensures r == BlockOf(View(), i, l)
    {
      if l < 0 { return 0; }
      if l <= ZERO_STAGE { return inodes[i].block[l]; }
      if l <= FIRST_STAGE {
        var t := inodes[i].block[IND];
        if t == 0 { return 0; }
        return disk[t][l - ZERO_STAGE - 1];
      }
      if l <= SECOND_STAGE {
        var offset := l - FIRST_STAGE - 1;
        var t := inodes[i].block[DIND];
        if t == 0 { return 0; }
        var leaf := disk[t][offset / PTRS];
        if leaf == 0 { return 0; }
        return disk[leaf][offset % PTRS];
      }
      return 0;
    }

    /** The inodes and bitmap are those of x, its tables are at the head of the list. */
    ghost predicate Holds(x: Outcome, base: seq<Dirty>)
      reads `inodes, `dirty, bitmap
    {
      inodes == x.inodes && Bits() == x.used && dirty == x.added + base
    }

    method EnsureDirect(i: nat, l: nat) returns (r: int)
      requires HasInode(inodes, disk, i) && l <= ZERO_STAGE && RunOk(inodes, Bits(), disk, Root(i, l))
      modifies `inodes, `superFree, `groupFree, bitmap
      ensures Drift() == old(Drift())
      ensures var x := RunDirect(old(inodes), old(Bits()), disk, i, l);
        inodes == x.inodes && Bits() == x.used && r == x.r
    {
      if inodes[i].block[l] == 0 {
        FreeExists(Bits());
        var b := AllocBlock();
        inodes := inodes[i := inodes[i].(block := inodes[i].block[l := b])];
      }
      r := inodes[i].block[l];
    }

    /** The table hanging off inode slot k, created zeroed if missing. */
    method OpenRoot(i: nat, k: nat) returns (tb: int, table: Words, isNew: bool)
      requires HasInode(inodes, disk, i) && (k == IND || k == DIND) && TableOk(inodes, Bits(), disk, i, k)
      modifies `inodes, `superFree, `groupFree, bitmap
      ensures Drift() == old(Drift())
      ensures OpenTable(old(inodes), old(Bits()), disk, i, k) == Table(inodes, Bits(), tb, table, isNew)
    {
      isNew := false;
      tb := inodes[i].block[k];
      if tb == 0 {
        FreeExists(Bits());
        table := Zeros();
        tb := AllocBlock();
        inodes := inodes[i := inodes[i].(block := inodes[i].block[k := tb])];
        isNew := true;
      } else {
        table := disk[tb];
      }
    }

    /** Entry e of a table in memory, filled with a new block if empty. */
    method FillEntry(table: Words, e: nat) returns (table': Words, changed: bool)
      requires e < |table| && (table[e] == 0 ==> FreeCount(Bits()) > 0)
      modifies `superFree, `groupFree, bitmap
      ensures Drift() == old(Drift())
      ensures changed <==> table[e] == 0
      ensures table' == Filled(table, e, old(Bits())) && Bits() == Taken(table, e, old(Bits()))
      ensures changed ==> 0 <= table'[e] < |Bits()|
    {
      table', changed := table, false;
      if table[e] == 0 {
        FreeExists(Bits());
        var b := AllocBlock();
        table' := table[e := b];
        changed := true;
      }
    }

    /** ext3_mark_block_dirty. */
    method MarkBlockDirty(block: int, content: Words)
      modifies `dirty
      ensures dirty == [Dirty(block, content)] + old(dirty) && View() == old(View()) && Drift() == old(Drift())
    {
      dirty := [Dirty(block, content)] + dirty;
    }

    /** Put a table on the write-back list if it changed. */
    method MarkDirty(block: int, content: Words, changed: bool)
      modifies `dirty
      ensures dirty == Change(block, content, changed) + old(dirty)
    {
      if changed { MarkBlockDirty(block, content); }
    }

    method EnsureIndirect(i: nat, e: nat) returns (r: int)
      requires HasInode(inodes, disk, i) && e < PTRS && RunOk(inodes, Bits(), disk, Ind(i, e))
      modifies `inodes, `dirty, `superFree, `groupFree, bitmap
      ensures Drift() == old(Drift())
      ensures var x := RunIndirect(old(inodes), old(Bits()), disk, i, e); Holds(x, old(dirty)) && r == x.r
    {
      var tb, table, isNew := OpenRoot(i, IND);
      var table', changed := FillEntry(table, e);
      r := table'[e];
      MarkDirty(tb, table', isNew || changed);
      Regroup(Change(tb, table', isNew || changed), [], old(dirty));
    }

    /** The leaf table for entry ti of the double-indirect table, both created if missing. */
    method OpenBoth(i: nat, ti: nat)
      returns (tb: int, table: Words, tableDirty: bool, lb: int, leaf: Words, isNew: bool)
      requires HasInode(inodes, disk, i) && ti < PTRS && TableOk(inodes, Bits(), disk, i, DIND)
      requires var t := OpenTable(inodes, Bits(), disk, i, DIND);
        if t.words[ti] == 0 then FreeCount(t.used) > 0 else 0 < t.words[ti] < |disk|
      modifies `inodes, `superFree, `groupFree, bitmap
      ensures Drift() == old(Drift())
      ensures OpenLeaf(old(inodes), old(Bits()), disk, i, ti) == Table(inodes, Bits(), lb, leaf, isNew)
      ensures var t := OpenTable(old(inodes), old(Bits()), disk, i, DIND);
        tb == t.tb && table == Filled(t.words, ti, t.used) && tableDirty == (t.isNew || isNew)
    {
      tb, table, tableDirty := OpenRoot(i, DIND);
      table, isNew := FillEntry(table, ti);
      tableDirty := tableDirty || isNew;
      lb := table[ti];
      leaf := if isNew then Zeros() else disk[lb];
    }

    method EnsureDouble(i: nat, ti: nat, li: nat) returns (r: int)
      requires HasInode(inodes, disk, i) && ti < PTRS && li < PTRS && RunOk(inodes, Bits(), disk, Leaf(i, ti, li))
      modifies `inodes, `dirty, `superFree, `groupFree, bitmap
      ensures Drift() == old(Drift())
      ensures var x := RunDouble(old(inodes), old(Bits()), disk, i, ti, li); Holds(x, old(dirty)) && r == x.r
    {
      var tb, table, tableDirty, lb, leaf, isNew := OpenBoth(i, ti);
      var leaf', changed := FillEntry(leaf, li);
      r := leaf'[li];
      MarkDirty(tb, table, tableDirty);
      MarkDirty(lb, leaf', isNew || changed);
      Regroup(Change(lb, leaf', isNew || changed), Change(tb, table, tableDirty), old(dirty));
    }

    /** ext3_inode_ensure_block. The demand: block 0 is in use, or else a single-indirect block that comes out as 0 is
        taken for a double-indirect one. */
    method EnsureBlock(i: nat, l: nat) returns (r: int)
      requires HasInode(inodes, disk, i) && (l <= SECOND_STAGE ==> RunOk(inodes, Bits(), disk, PathOf(i, l)))
      requires |Bits()| > 0 && Bits()[0]
      modifies `inodes, `dirty, `superFree, `groupFree, bitmap
      ensures Drift() == old(Drift())
      ensures l <= SECOND_STAGE ==> var x := Run(old(inodes), old(Bits()), disk, PathOf(i, l));
        Holds(x, old(dirty)) && r == x.r
      ensures l > SECOND_STAGE ==> View() == old(View()) && dirty == old(dirty) && r == 0
    {
      if l <= ZERO_STAGE {
        r := EnsureDirect(i, l);
        return;
      }
      if l <= FIRST_STAGE {
        var entry := l - ZERO_STAGE - 1;
        assert PathOf(i, l) == Ind(i, entry);
        r := EnsureFirst(i, entry);
        if r != 0 { return; }
        assert false;
      }
      if l <= SECOND_STAGE {
        var offset := l - FIRST_STAGE - 1;
        var ti, li := offset / PTRS, offset % PTRS;
        assert PathOf(i, l) == Leaf(i, ti, li);
        r := EnsureDouble(i, ti, li);
        if r != 0 { return; }
      }
      r := 0;
    }

    method EnsureFirst(i: nat, e: nat) returns (r: int)
      requires HasInode(inodes, disk, i) && e < PTRS && RunOk(inodes, Bits(), disk, Ind(i, e))
      requires |Bits()| > 0 && Bits()[0]
      modifies `inodes, `dirty, `superFree, `groupFree, bitmap
      ensures Drift() == old(Drift()) && r != 0
      ensures var x := Run(old(inodes), old(Bits()), disk, Ind(i, e)); Holds(x, old(dirty)) && r == x.r
    {
      IndirectFound(inodes, Bits(), disk, i, e);
      r := EnsureIndirect(i, e);
    }

    /** ext3_flush: the pending blocks go out in list order, and the list is emptied. */
    method Flush()
      requires Writable(dirty, |disk|)
      modifies `disk, `dirty
      ensures disk == old(Flushed(disk, dirty)) && dirty == []
    {
      var k := 0;
      while k < |dirty|
        invariant 0 <= k <= |dirty| && |disk| == |old(disk)| && dirty == old(dirty)
        invariant Flushed(disk, dirty[k..]) == old(Flushed(disk, dirty))
      {
        disk := disk[dirty[k].block := dirty[k].content];
        k := k + 1;
      }
      dirty := [];
    }

    constructor (bitmap: array<bv8>, inodes: seq<Inode>, disk: seq<Words>, superFree: int, groupFree: int)
    {
      this.bitmap := bitmap;
      this.inodes, this.disk, this.dirty := inodes, disk, [];
      this.superFree, this.groupFree := superFree, groupFree;
    }
  }
}
