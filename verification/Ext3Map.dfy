/** The block map of ext3fs.c: direct, indirect and double-indirect pointers, the block
    bitmap, and what acquiring one block does to them. A disk block is 1024 words. */
module Ext3Map {

  const PTRS := 1024               // EXT3_PTRS_PER_BLOCK
  const IND := 12                  // EXT3_IND_BLOCK
  const DIND := 13                 // EXT3_DIND_BLOCK
  const ZERO_STAGE := 11           // last direct logical block
  const FIRST_STAGE := 1035        // last logical block of the single-indirect range
  const SECOND_STAGE := 1049611    // last logical block of the double-indirect range

  type Words = seq<int>

  datatype Inode = Inode(block: seq<int>, size: int, nblocks: int)

  /** Inodes in memory, disk contents, and the block bitmap. */
  datatype Fs = Fs(inodes: seq<Inode>, disk: seq<Words>, used: seq<bool>)

  /** A pointer slot: in an inode, in its indirect table, in its double-indirect table, or in a leaf of that. */
  datatype Path =
    | Root(i: nat, k: nat)
    | Ind(i: nat, j: nat)
    | Dind(i: nat, j: nat)
    | Leaf(i: nat, j: nat, m: nat)

  ghost predicate Shaped(fs: Fs)
  {
    && |fs.used| == |fs.disk|
    && (forall i :: 0 <= i < |fs.inodes| ==> |fs.inodes[i].block| == 15)
    && (forall b :: 0 <= b < |fs.disk| ==> |fs.disk[b]| == PTRS)
  }

  ghost predicate Valid(fs: Fs, p: Path)
  {
    match p
    case Root(i, k) => i < |fs.inodes| && k <= DIND
    case Ind(i, j) => i < |fs.inodes| && j < PTRS
    case Dind(i, j) => i < |fs.inodes| && j < PTRS
    case Leaf(i, j, m) => i < |fs.inodes| && j < PTRS && m < PTRS
  }

  /** Word j of table block t; a null table has null entries. */
  ghost function Entry(disk: seq<Words>, t: int, j: nat): int
  {
    if 0 < t < |disk| && j < |disk[t]| then disk[t][j] else 0
  }

  /** The block number stored at a slot. */
  ghost function Slot(fs: Fs, p: Path): int
    requires Shaped(fs) && Valid(fs, p)
  {
    match p
    case Root(i, k) => fs.inodes[i].block[k]
    case Ind(i, j) => Entry(fs.disk, fs.inodes[i].block[IND], j)
    case Dind(i, j) => Entry(fs.disk, fs.inodes[i].block[DIND], j)
    case Leaf(i, j, m) => Entry(fs.disk, Entry(fs.disk, fs.inodes[i].block[DIND], j), m)
  }

  /** Every block reached through a slot is marked used, and is reached through no other slot. */
  ghost predicate Marked(fs: Fs)
    requires Shaped(fs)
  {
    forall p {:trigger Slot(fs, p)} :: Valid(fs, p) && Slot(fs, p) != 0 ==>
    0 < Slot(fs, p) < |fs.disk| && fs.used[Slot(fs, p)]
  }

  ghost predicate OnePath(fs: Fs)
    requires Shaped(fs)
  {
    forall p, q {:trigger Slot(fs, p), Slot(fs, q)} ::
      Valid(fs, p) && Valid(fs, q) && Slot(fs, p) != 0 && Slot(fs, p) == Slot(fs, q) ==> p == q
  }

  ghost predicate Inv(fs: Fs)
  {
    Shaped(fs) && |fs.disk| > 0 && fs.used[0] && Marked(fs) && OnePath(fs)
  }

  // ---- giving a fresh block to an empty slot ----

  /** The slot a slot lives in. */
  ghost function Parent(p: Path): Path
    requires !p.Root?
  {
    match p
    case Ind(i, j) => Root(i, IND)
    case Dind(i, j) => Root(i, DIND)
    case Leaf(i, j, m) => Dind(i, j)
  }

  /** Slots whose block is itself a table. */
  ghost predicate IsTable(p: Path) { (p.Root? && (p.k == IND || p.k == DIND)) || p.Dind? }

  function Zeros(): (w: Words)
    ensures |w| == PTRS && forall j :: 0 <= j < PTRS ==> w[j] == 0
  {
    seq(PTRS, i => 0)
  }

  ghost function WordIndex(p: Path): nat
  {
    match p
    case Root(i, k) => 0
    case Ind(i, j) => j
    case Dind(i, j) => j
    case Leaf(i, j, m) => m
  }

  /** Block b is marked used and stored at slot p; a new table starts out zeroed. */
  ghost function Assign(fs: Fs, p: Path, b: int): Fs
    requires Shaped(fs) && Valid(fs, p) && 0 < b < |fs.disk|
    requires p.Root? || 0 < Slot(fs, Parent(p)) < |fs.disk|
  {
    var disk := if IsTable(p) then fs.disk[b := Zeros()] else fs.disk;
    var used := fs.used[b := true];
    if p.Root? then
      var ino := fs.inodes[p.i];
      Fs(fs.inodes[p.i := ino.(block := ino.block[p.k := b])], disk, used)
    else
      var t := Slot(fs, Parent(p));
      Fs(fs.inodes, disk[t := disk[t][WordIndex(p) := b]], used)
  }

  ghost function Child(r: Path, j: nat): Path
    requires IsTable(r)
  {
    match r
    case Root(i, k) => if k == IND then Ind(i, j) else Dind(i, j)
    case Dind(i, k) => Leaf(i, k, j)
  }

  ghost predicate CanAssign(fs: Fs, p: Path, b: int)
  {
    && Inv(fs) && Valid(fs, p) && Slot(fs, p) == 0 && 0 < b < |fs.disk| && !fs.used[b]
    && (p.Root? || (Valid(fs, Parent(p)) && 0 < Slot(fs, Parent(p)) < |fs.disk|))
  }

  /** Reading entry j of the table at slot r after the assignment. */
  lemma EntryAfter(fs: Fs, p: Path, b: int, r: Path, j: nat)
    requires CanAssign(fs, p, b) && IsTable(r) && Valid(fs, r) && j < PTRS
    ensures var now := if r == p then b else Slot(fs, r);
      Entry(Assign(fs, p, b).disk, now, j) == if Child(r, j) == p then b else if r == p then 0 else Entry(fs.disk,
      Slot(fs, r), j)
  {
    var v := Slot(fs, r);
    if v != 0 { assert fs.used[v]; }
    if !p.Root? {
      var t := Slot(fs, Parent(p));
      assert fs.used[t];
      if v == t { assert r == Parent(p); }
    }
  }

  /** What Assign does to the slots: p becomes b, every other slot keeps its value. */
  lemma AssignSlots(fs: Fs, p: Path, b: int, q: Path)
    requires CanAssign(fs, p, b) && Valid(fs, q)
    ensures Shaped(Assign(fs, p, b)) && Valid(Assign(fs, p, b), q)
    ensures Slot(Assign(fs, p, b), q) == if q == p then b else Slot(fs, q)
  {
    match q
    case Root(i, k) =>
    case Ind(i, j) => EntryAfter(fs, p, b, Root(i, IND), j);
    case Dind(i, j) => EntryAfter(fs, p, b, Root(i, DIND), j);
    case Leaf(i, j, m) => AssignLeafSlot(fs, p, b, i, j, m);
  }

  lemma AssignLeafSlot(fs: Fs, p: Path, b: int, i: nat, j: nat, m: nat)
    requires CanAssign(fs, p, b) && Valid(fs, Leaf(i, j, m))
    ensures Shaped(Assign(fs, p, b)) && Valid(Assign(fs, p, b), Leaf(i, j, m))
    ensures Slot(Assign(fs, p, b), Leaf(i, j, m)) == if Leaf(i, j, m) == p then b else Slot(fs, Leaf(i, j, m))
  {
    EntryAfter(fs, p, b, Root(i, DIND), j);
    EntryAfter(fs, p, b, Dind(i, j), m);
  }

  lemma AssignMarks(fs: Fs, p: Path, b: int, q: Path)
    requires CanAssign(fs, p, b) && Shaped(Assign(fs, p, b)) && Valid(fs, q) && Slot(Assign(fs, p, b), q) != 0
    ensures var v := Slot(Assign(fs, p, b), q); 0 < v < |fs.disk| && Assign(fs, p, b).used[v]
  {
    AssignSlots(fs, p, b, q);
  }

  lemma AssignOnePath(fs: Fs, p: Path, b: int, q: Path, q': Path)
    requires CanAssign(fs, p, b) && Shaped(Assign(fs, p, b)) && Valid(fs, q) && Valid(fs, q')
    requires Slot(Assign(fs, p, b), q) != 0 && Slot(Assign(fs, p, b), q) == Slot(Assign(fs, p, b), q')
    ensures q == q'
  {
    AssignSlots(fs, p, b, q);
    AssignSlots(fs, p, b, q');
  }

  lemma AssignKeepsInv(fs: Fs, p: Path, b: int)
    requires CanAssign(fs, p, b)
    ensures Inv(Assign(fs, p, b))
  {
    var gs := Assign(fs, p, b);
    AssignSlots(fs, p, b, p);
    forall q | Valid(gs, q) && Slot(gs, q) != 0 ensures 0 < Slot(gs, q) < |gs.disk| && gs.used[Slot(gs, q)] {
      AssignMarks(fs, p, b, q);
    }
    forall q, q' | Valid(gs, q) && Valid(gs, q') && Slot(gs, q) != 0 && Slot(gs, q) == Slot(gs, q') ensures q == q' {
      AssignOnePath(fs, p, b, q, q');
    }
  }

  // ---- the bitmap ----

  ghost function FreeCount(used: seq<bool>): nat
  {
    if used == [] then 0 else (if used[0] then 0 else 1) + FreeCount(used[1..])
  }

  /** The first clear bit, or the length. */
  ghost function FirstFree(used: seq<bool>): (b: nat)
    ensures b <= |used| && (b < |used| ==> !used[b])
    ensures forall k :: 0 <= k < b ==> used[k]
  {
    if used == [] || !used[0] then 0 else 1 + FirstFree(used[1..])
  }

  lemma {:induction false} FreeExists(used: seq<bool>)
    requires FreeCount(used) > 0
    ensures FirstFree(used) < |used|
  {
    if used[0] { FreeExists(used[1..]); }
  }

  /** Marking a free block takes exactly one from the number of free blocks; clearing gives it back. */
  lemma {:induction false} FreeCountUpdate(used: seq<bool>, b: nat, v: bool)
    requires b < |used|
    ensures FreeCount(used[b := v]) == FreeCount(used) + (if used[b] then 1 else 0) - (if v then 1 else 0)
  {
    if b == 0 {
      assert used[b := v][1..] == used[1..];
    } else {
      assert used[b := v][1..] == used[1..][b - 1 := v];
      FreeCountUpdate(used[1..], b - 1, v);
    }
  }

  // ---- acquiring the block of a slot ----

  ghost function Depth(p: Path): nat { if p.Root? then 0 else if p.Leaf? then 2 else 1 }

  /** Slots still empty on the way to p, p included. */
  ghost function Need(fs: Fs, p: Path): nat
    requires Shaped(fs) && Valid(fs, p)
    decreases Depth(p)
  {
    (if Slot(fs, p) == 0 then 1 else 0) + if p.Root? then 0 else Need(fs, Parent(p))
  }

  /** p itself or a table on the way to it. */
  ghost predicate OnWay(q: Path, p: Path)
    decreases Depth(p)
  {
    q == p || (!p.Root? && OnWay(q, Parent(p)))
  }

  ghost function Fill(fs: Fs, p: Path): Fs
    requires Inv(fs) && Valid(fs, p) && (Slot(fs, p) == 0 ==> FreeCount(fs.used) > 0)
    requires p.Root? || Slot(fs, Parent(p)) != 0
  {
    if Slot(fs, p) != 0 then fs
    else
      FreeExists(fs.used);
      Assign(fs, p, FirstFree(fs.used))
  }

  /** Everything acquiring slot p promises about the state gs it leads to. */
  ghost predicate Acquired(fs: Fs, gs: Fs, p: Path)
    requires Shaped(fs) && Valid(fs, p)
  {
    && Inv(gs) && |gs.disk| == |fs.disk| && |gs.inodes| == |fs.inodes| && Slot(gs, p) != 0
    && (forall q {:trigger Slot(gs, q)} :: Valid(fs, q) && (Slot(fs, q) != 0 || !OnWay(q, p)) ==>
         Slot(gs, q) == Slot(fs, q))
    && FreeCount(gs.used) == FreeCount(fs.used) - Need(fs, p)
    && (forall i :: 0 <= i < |fs.inodes| ==>
         gs.inodes[i].size == fs.inodes[i].size &&
         gs.inodes[i].nblocks == fs.inodes[i].nblocks)
  }

  lemma FillAcquires(fs: Fs, p: Path)
    requires Inv(fs) && Valid(fs, p) && (Slot(fs, p) == 0 ==> FreeCount(fs.used) > 0)
    requires p.Root? || Slot(fs, Parent(p)) != 0
    ensures Inv(Fill(fs, p)) && |Fill(fs, p).disk| == |fs.disk| && |Fill(fs, p).inodes| == |fs.inodes|
    ensures Slot(Fill(fs, p), p) != 0
    ensures forall q :: Valid(fs, q) && (Slot(fs, q) != 0 || q != p) ==> Slot(Fill(fs, p), q) == Slot(fs, q)
    ensures FreeCount(Fill(fs, p).used) == FreeCount(fs.used) - if Slot(fs, p) == 0 then 1 else 0
  {
    if Slot(fs, p) == 0 {
      FreeExists(fs.used);
      var b := FirstFree(fs.used);
      if !p.Root? { assert Valid(fs, Parent(p)) && Slot(fs, Parent(p)) != 0; }
      AssignKeepsInv(fs, p, b);
      AssignSlots(fs, p, b, p);
      forall q | Valid(fs, q) && q != p ensures Slot(Assign(fs, p, b), q) == Slot(fs, q) { AssignSlots(fs, p, b, q); }
      FreeCountUpdate(fs.used, b, true);
    }
  }

  /** Fill the tables on the way to p, then p. */
  ghost function Acquire(fs: Fs, p: Path): (gs: Fs)
    requires Inv(fs) && Valid(fs, p) && FreeCount(fs.used) >= Need(fs, p)
    decreases Depth(p), 0
  {
    if p.Root? then Fill(fs, p)
    else
      AcquireWorks(fs, Parent(p));
      ChainStep(fs, Acquire(fs, Parent(p)), p);
      Fill(Acquire(fs, Parent(p)), p)
  }

  lemma AcquireWorks(fs: Fs, p: Path)
    requires Inv(fs) && Valid(fs, p) && FreeCount(fs.used) >= Need(fs, p)
    ensures Acquired(fs, Acquire(fs, p), p)
    decreases Depth(p), 1
  {
    if p.Root? {
      FillAcquires(fs, p);
    } else {
      AcquireWorks(fs, Parent(p));
      ChainStep(fs, Acquire(fs, Parent(p)), p);
    }
  }

  lemma ChainStep(fs: Fs, hs: Fs, p: Path)
    requires Inv(fs) && Valid(fs, p) && !p.Root? && FreeCount(fs.used) >= Need(fs, p) && Acquired(fs, hs, Parent(p))
    ensures Valid(hs, p) && Slot(hs, p) == Slot(fs, p) && (Slot(hs, p) == 0 ==> FreeCount(hs.used) > 0)
    ensures Acquired(fs, Fill(hs, p), p)
  {
    assert !OnWay(p, Parent(p));
    assert Slot(hs, p) == Slot(fs, p);
    FillAcquires(hs, p);
  }

  /** What acquiring leaves alone: marks stay, new pointers go to blocks that were free, data of mapped slots stays. */
  ghost predicate Framed(fs: Fs, gs: Fs)
    requires Shaped(fs)
  {
    && Shaped(gs) && |gs.disk| == |fs.disk| && |gs.inodes| == |fs.inodes|
    && (forall b :: 0 <= b < |fs.used| && fs.used[b] ==> gs.used[b])
    && (forall q {:trigger Slot(gs, q)} :: Valid(fs, q) ==> SlotFramed(fs, gs, q))
  }

  ghost predicate SlotFramed(fs: Fs, gs: Fs, q: Path)
    requires Shaped(fs) && Shaped(gs) && Valid(fs, q) && Valid(gs, q)
  {
    var v, w := Slot(fs, q), Slot(gs, q);
    && (v != 0 ==> w == v && (!IsTable(q) && 0 < v < |fs.disk| && v < |gs.disk| ==> gs.disk[v] == fs.disk[v]))
    && (v == 0 && w != 0 && 0 < w < |fs.used| ==> !fs.used[w])
  }

  lemma FillFrame(fs: Fs, p: Path)
    requires Inv(fs) && Valid(fs, p) && (Slot(fs, p) == 0 ==> FreeCount(fs.used) > 0)
    requires p.Root? || Slot(fs, Parent(p)) != 0
    ensures Framed(fs, Fill(fs, p))
  {
    if Slot(fs, p) == 0 {
      FreeExists(fs.used);
      var b := FirstFree(fs.used);
      var gs := Assign(fs, p, b);
      AssignFrame(fs, p, b, p);
      forall q | Valid(fs, q) ensures SlotFramed(fs, gs, q) { AssignFrame(fs, p, b, q); }
    } else {
      assert forall q :: Valid(fs, q) ==> SlotFramed(fs, fs, q);
    }
  }

  lemma AssignFrame(fs: Fs, p: Path, b: int, q: Path)
    requires CanAssign(fs, p, b) && Valid(fs, q)
    ensures Shaped(Assign(fs, p, b)) && SlotFramed(fs, Assign(fs, p, b), q)
  {
    AssignSlots(fs, p, b, q);
    var v := Slot(fs, q);
    if v != 0 && !IsTable(q) {
      assert fs.used[v];
      if !p.Root? { assert v != Slot(fs, Parent(p)); }
    }
  }

  lemma SlotFramedTwice(fs: Fs, hs: Fs, gs: Fs, q: Path)
    requires Shaped(fs) && Framed(fs, hs) && Framed(hs, gs) && Valid(fs, q) && Inv(gs)
    ensures SlotFramed(fs, gs, q)
  {
    assert SlotFramed(fs, hs, q) by { assert Slot(hs, q) == Slot(hs, q); }
    assert SlotFramed(hs, gs, q) by { assert Slot(gs, q) == Slot(gs, q); }
  }

  lemma AcquireFrame(fs: Fs, p: Path)
    requires Inv(fs) && Valid(fs, p) && FreeCount(fs.used) >= Need(fs, p)
    ensures Framed(fs, Acquire(fs, p))
    decreases Depth(p)
  {
    if p.Root? {
      FillFrame(fs, p);
    } else {
      var hs := Acquire(fs, Parent(p));
      AcquireFrame(fs, Parent(p));
      AcquireWorks(fs, Parent(p));
      ChainStep(fs, hs, p);
      FillFrame(hs, p);
      forall q | Valid(fs, q) ensures SlotFramed(fs, Fill(hs, p), q) { SlotFramedTwice(fs, hs, Fill(hs, p), q); }
    }
  }

  // ---- logical blocks ----

  /** The slot of logical block l of inode i. */
  ghost function PathOf(i: nat, l: nat): Path
    requires l <= SECOND_STAGE
  {
    if l <= ZERO_STAGE then Root(i, l)
    else if l <= FIRST_STAGE then Ind(i, l - ZERO_STAGE - 1)
    else Leaf(i, (l - FIRST_STAGE - 1) / PTRS, (l - FIRST_STAGE - 1) % PTRS)
  }

  /** Different logical blocks have different slots, and none of them is a table's. */
  lemma PathOfInjective(i: nat, l: nat, i': nat, l': nat)
    requires l <= SECOND_STAGE && l' <= SECOND_STAGE
    ensures PathOf(i, l) == PathOf(i', l') ==> i == i' && l == l'
    ensures !IsTable(PathOf(i, l))
  {}

  lemma PathOfValid(fs: Fs, i: nat, l: nat)
    requires i < |fs.inodes| && l <= SECOND_STAGE
    ensures Valid(fs, PathOf(i, l))
  {}

  /** What ext3_inode_get_block returns. */
  ghost function BlockOf(fs: Fs, i: nat, l: int): int
    requires Shaped(fs) && i < |fs.inodes|
  {
    if 0 <= l <= SECOND_STAGE then
      PathOfValid(fs, i, l);
      Slot(fs, PathOf(i, l))
    else 0
  }

  lemma WayHasTables(q: Path, p: Path)
    requires OnWay(q, p) && q != p
    ensures IsTable(q)
    decreases Depth(p)
  {
    if q != Parent(p) { WayHasTables(q, Parent(p)); }
  }

  lemma AcquiredMapsOne(fs: Fs, gs: Fs, i: nat, l: nat, i': nat, l': int)
    requires Inv(fs) && i < |fs.inodes| && l <= SECOND_STAGE && i' < |fs.inodes|
    requires Valid(fs, PathOf(i, l)) && Acquired(fs, gs, PathOf(i, l))
    ensures BlockOf(gs, i, l) != 0 && (BlockOf(fs, i, l) != 0 ==> BlockOf(gs, i, l) == BlockOf(fs, i, l))
    ensures (i', l') != (i, l as int) ==> BlockOf(gs, i', l') == BlockOf(fs, i', l')
  {
    var p := PathOf(i, l);
    if 0 <= l' <= SECOND_STAGE && (i', l') != (i, l as int) {
      var q := PathOf(i', l');
      PathOfInjective(i, l, i', l');
      PathOfInjective(i', l', i, l);
      PathOfValid(fs, i', l');
      if OnWay(q, p) { WayHasTables(q, p); }
      assert Slot(gs, q) == Slot(fs, q);
    }
  }

  /** Acquiring logical block l maps it and leaves every other logical block of every inode as it was. */
  lemma AcquireMapsOne(fs: Fs, i: nat, l: nat, i': nat, l': int)
    requires Inv(fs) && i < |fs.inodes| && l <= SECOND_STAGE && i' < |fs.inodes|
    requires Valid(fs, PathOf(i, l)) && FreeCount(fs.used) >= Need(fs, PathOf(i, l))
    ensures var gs := Acquire(fs, PathOf(i, l));
      Inv(gs) && |gs.inodes| == |fs.inodes| && BlockOf(gs, i, l) != 0 &&
      (BlockOf(fs, i, l) != 0 ==> BlockOf(gs, i, l) == BlockOf(fs, i, l)) &&
      ((i', l') != (i, l as int) ==> BlockOf(gs, i', l') == BlockOf(fs, i', l'))
  {
    AcquireWorks(fs, PathOf(i, l));
    AcquiredMapsOne(fs, Acquire(fs, PathOf(i, l)), i, l, i', l');
  }
}
