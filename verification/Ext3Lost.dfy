/** ext3_write of ext3fs.c over two missing blocks that write one table: it returns the full count, and the second
    block is lost. */
module Ext3Lost {
  import opened Digits
  import opened Ext3Map
  import opened Ext3Ensure
  import opened Ext3Blocks
  import opened Ext3Bytes
  import opened Ext3Pending
  import opened Ext3Read
  import opened Ext3Files
  import opened Ext3Twice

  /** Free blocks hold nothing but the numbers of free blocks: a new table is read from the disk before it is written
      there, and so is what it leads to. */
  ghost predicate Blank(fs: Fs)
    requires Shaped(fs)
  {
    forall b, j :: 0 <= b < |fs.disk| && !fs.used[b] && 0 <= j < PTRS ==>
      0 <= fs.disk[b][j] < |fs.disk| && (fs.disk[b][j] != 0 ==> !fs.used[fs.disk[b][j]])
  }

  /** Two missing blocks that write one table. */
  ghost predicate TwoClash(fs: Fs, i: nat, l: nat, l': nat)
  {
    TwoMissing(fs, i, l, l') && Blank(fs) && Clash(fs, PathOf(i, l), PathOf(i, l'))
  }

  // ---- the block the second turn writes ----

  lemma FilledNumber(w: Words, e: nat, used: seq<bool>)
    requires e < |w| && 0 <= w[e] < |used| && FreeCount(used) > 0 && used[0]
    ensures 0 < Filled(w, e, used)[e] < |used| && Taken(w, e, used)[0]
    ensures w[e] == 0 ==> !used[Filled(w, e, used)[e]]
  {
    FreeExists(used);
  }

  /** The table a pointer of gs leads to, as the disk has it: one of fs, or a block that was free. */
  lemma PointerOnDisk(fs: Fs, gs: Fs, i: nat, k: nat, j: nat)
    requires Inv(fs) && Blank(fs) && Framed(fs, gs) && Inv(gs) && i < |fs.inodes| && (k == IND || k == DIND) && j < PTRS
    ensures 0 <= gs.inodes[i].block[k] < |fs.disk|
    ensures var tb := gs.inodes[i].block[k]; tb != 0 ==>
      0 <= fs.disk[tb][j] < |fs.disk| &&
      if fs.inodes[i].block[k] == 0 then fs.disk[tb][j] != 0 ==> !fs.used[fs.disk[tb][j]]
      else tb == fs.inodes[i].block[k] && fs.disk[tb][j] == Slot(fs, if k == IND then Ind(i, j) else Dind(i, j))
  {
    var r := Root(i, k);
    assert gs.inodes[i].block[k] == Slot(gs, r) && fs.inodes[i].block[k] == Slot(fs, r);
    assert SlotFramed(fs, gs, r);
    var q := if k == IND then Ind(i, j) else Dind(i, j);
    assert Slot(fs, q) == Entry(fs.disk, fs.inodes[i].block[k], j);
  }

  lemma NumberIndirect(fs: Fs, gs: Fs, i: nat, j: nat)
    requires Inv(fs) && Blank(fs) && Framed(fs, gs) && Inv(gs) && i < |fs.inodes| && j < PTRS
    requires FreeCount(gs.used) > 1
    ensures 0 < RunIndirect(gs.inodes, gs.used, fs.disk, i, j).r < |fs.disk|
  {
    PointerOnDisk(fs, gs, i, IND, j);
    var t := OpenTable(gs.inodes, gs.used, fs.disk, i, IND);
    FreeExists(gs.used);
    GrabCount(gs.used);
    FilledNumber(t.words, j, t.used);
  }

  lemma NumberDouble(fs: Fs, gs: Fs, i: nat, j: nat, m: nat)
    requires Inv(fs) && Blank(fs) && Framed(fs, gs) && Inv(gs) && i < |fs.inodes| && j < PTRS && m < PTRS
    requires FreeCount(gs.used) > 2 && Slot(fs, Leaf(i, j, m)) == 0
    ensures 0 < RunDouble(gs.inodes, gs.used, fs.disk, i, j, m).r < |fs.disk|
    ensures Slot(fs, Dind(i, j)) != 0 ==> !gs.used[RunDouble(gs.inodes, gs.used, fs.disk, i, j, m).r]
  {
    PointerOnDisk(fs, gs, i, DIND, j);
    var t := OpenTable(gs.inodes, gs.used, fs.disk, i, DIND);
    FreeExists(gs.used);
    GrabCount(gs.used);
    FilledNumber(t.words, j, t.used);
    TakenCount(t.words, j, t.used);
    var f := OpenLeaf(gs.inodes, gs.used, fs.disk, i, j);
    assert Slot(fs, Dind(i, j)) == Entry(fs.disk, fs.inodes[i].block[DIND], j);
    assert 0 <= f.words[m] < |fs.disk|;
    FilledNumber(f.words, m, f.used);
  }

  /** The second turn's block lies on the disk; where the leaf was there already it is one that was free. */
  lemma SecondNumber(fs: Fs, gs: Fs, i: nat, l: nat, l': nat, added: seq<Dirty>)
    requires TwoClash(fs, i, l, l') && Got(fs, gs, i, l, added) && HasInode(gs.inodes, fs.disk, i)
    ensures var p' := PathOf(i, l'); var x' := Run(gs.inodes, gs.used, fs.disk, p');
      0 < x'.r < |fs.disk| && (p'.Leaf? && Slot(fs, Dind(i, p'.j)) != 0 ==> !gs.used[x'.r])
  {
    ClashExactly(fs, i, l, l');
    match PathOf(i, l')
    case Ind(i', j) => NumberIndirect(fs, gs, i, j);
    case Leaf(i', j, m) => NumberDouble(fs, gs, i, j, m);
  }

  // ---- what the flush makes of the two turns ----

  /** The second outcome, with the two data blocks the turns put on the list. */
  ghost function WithData(x': Outcome, r: int, w: Words, w': Words): Outcome
  {
    x'.(added := [Dirty(x'.r, w')] + x'.added + [Dirty(r, w)])
  }

  lemma AvoidsBoth(added: seq<Dirty>, d: Dirty, d': Dirty, b: int)
    requires Avoids(added, b) && d.block != b && d'.block != b
    ensures Avoids([d'] + added + [d], b)
  {}

  /** The data blocks go nowhere near a table that both turns leave alone. */
  lemma DataUntouched(fs: Fs, gs: Fs, i: nat, l: nat, l': nat, added: seq<Dirty>, added': seq<Dirty>, d: Dirty,
                      d': Dirty)
    requires TwoClash(fs, i, l, l') && Got(fs, gs, i, l, added) && Untouched(fs, gs, i, l, l', added')
    requires d.block == BlockOf(gs, i, l) && 0 < d'.block < |fs.disk|
    requires var p' := PathOf(i, l'); p'.Leaf? && Slot(fs, Dind(i, p'.j)) != 0 ==> !gs.used[d'.block]
    ensures Untouched(fs, gs, i, l, l', [d'] + added' + [d])
  {
    var p, p' := PathOf(i, l), PathOf(i, l');
    var tb := Slot(gs, Root(i, DIND));
    if p.Leaf? && p'.Leaf? && p.j == p'.j && Slot(fs, Dind(i, p.j)) != 0 {
      assert Slot(gs, Dind(i, p.j)) == Slot(fs, Dind(i, p.j));
      assert tb != 0 && gs.used[tb];
      assert Slot(gs, p) != tb;
      AvoidsBoth(added', d, d', tb);
    }
  }

  /** The first block holds w, the second is not there. */
  ghost predicate Lost(end: Fs, i: nat, l: nat, l': nat, w: Words)
  {
    && Shaped(end) && i < |end.inodes| && BlockOf(end, i, l') == 0
    && 0 < BlockOf(end, i, l) < |end.disk| && end.disk[BlockOf(end, i, l)] == w
  }

  lemma FirstStays(disk: seq<Words>, front: seq<Dirty>, r: int, w: Words, added: seq<Dirty>)
    requires Writable(front, |disk|) && Writable(added, |disk|) && 0 <= r < |disk| && |w| == PTRS && Avoids(added, r)
    ensures Writable(front + [Dirty(r, w)] + added, |disk|)
    ensures Flushed(disk, front + [Dirty(r, w)] + added)[r] == w
  {
    FlushedPush(Flushed(disk, front), r, w, added);
    FlushedConcat(disk, front, [Dirty(r, w)] + added);
    assert front + [Dirty(r, w)] + added == front + ([Dirty(r, w)] + added);
  }

  lemma LostWith(fs: Fs, gs: Fs, i: nat, l: nat, l': nat, added: seq<Dirty>, y: Outcome, front: seq<Dirty>, r: int,
                 w: Words)
    requires TwoClash(fs, i, l, l') && Got(fs, gs, i, l, added) && |w| == PTRS
    requires r == BlockOf(gs, i, l) != 0 && BlockOf(gs, i, l') == 0
    requires Named(fs, gs, PathOf(i, l), added) && Untouched(fs, gs, i, l, l', added) &&
      Untouched(fs, gs, i, l, l', y.added)
    requires HasInode(gs.inodes, fs.disk, i) && Harmless(gs.inodes, fs.disk, y, i)
    requires y.added == front + [Dirty(r, w)] && Writable(front, |fs.disk|)
    ensures Writable(y.added + added, |fs.disk|) && Lost(End(fs, added, y), i, l, l', w)
  {
    SecondLost(fs, gs, i, l, l', added, y);
    TablesAvoidData(gs, added, i, l);
    assert r == Slot(gs, PathOf(i, l));
    FirstStays(fs.disk, front, r, w, added);
  }

  lemma HarmlessWith(inodes: seq<Inode>, disk: seq<Words>, x': Outcome, i: nat, r: int, w: Words, w': Words)
    requires HasInode(inodes, disk, i) && Harmless(inodes, disk, x', i) && |w| == |w'| == PTRS
    requires 0 <= r < |disk| && 0 <= x'.r < |disk|
    ensures Harmless(inodes, disk, WithData(x', r, w, w'), i) && Writable([Dirty(x'.r, w')] + x'.added, |disk|)
  {}

  /** What the two turns know of each other. */
  ghost predicate Turned(fs: Fs, gs: Fs, i: nat, l: nat, l': nat, x: Outcome, x': Outcome)
  {
    && TwoClash(fs, i, l, l') && Got(fs, gs, i, l, x.added)
    && x.r == BlockOf(gs, i, l) != 0 && BlockOf(gs, i, l') == 0
    && Named(fs, gs, PathOf(i, l), x.added) && Untouched(fs, gs, i, l, l', x.added)
    && Untouched(fs, gs, i, l, l', x'.added)
    && HasInode(gs.inodes, fs.disk, i) && Harmless(gs.inodes, fs.disk, x', i) && 0 < x'.r < |fs.disk|
    && var p' := PathOf(i, l'); p'.Leaf? && Slot(fs, Dind(i, p'.j)) != 0 ==> !gs.used[x'.r]
  }

  lemma SecondIsLost(fs: Fs, gs: Fs, i: nat, l: nat, l': nat, x: Outcome, x': Outcome, w: Words, w': Words)
    requires Turned(fs, gs, i, l, l', x, x') && |w| == |w'| == PTRS
    ensures var y := WithData(x', x.r, w, w');
      Writable(y.added + x.added, |fs.disk|) && Lost(End(fs, x.added, y), i, l, l', w)
  {
    var y := WithData(x', x.r, w, w');
    assert x.r == Slot(gs, PathOf(i, l));
    HarmlessWith(gs.inodes, fs.disk, x', i, x.r, w, w');
    DataUntouched(fs, gs, i, l, l', x.added, x'.added, Dirty(x.r, w), Dirty(x'.r, w'));
    LostWith(fs, gs, i, l, l', x.added, y, [Dirty(x'.r, w')] + x'.added, x.r, w);
  }

  lemma BothTurns(fs: Fs, i: nat, l: nat, l': nat) returns (gs: Fs, x: Outcome, x': Outcome)
    requires TwoClash(fs, i, l, l')
    ensures Turned(fs, gs, i, l, l', x, x') && x.inodes == gs.inodes && x.used == gs.used
    ensures HasInode(fs.inodes, fs.disk, i) && RunOk(fs.inodes, fs.used, fs.disk, PathOf(i, l)) &&
      x == Run(fs.inodes, fs.used, fs.disk, PathOf(i, l))
    ensures RunOk(gs.inodes, gs.used, fs.disk, PathOf(i, l')) &&
      x' == Run(gs.inodes, gs.used, fs.disk, PathOf(i, l'))
    ensures Shaped(Stale(fs, gs)) && Findable(Stale(fs, gs), i, l')
  {
    gs := Acquire(fs, PathOf(i, l));
    x := FirstKnown(fs, i, l, l');
    SecondRuns(fs, gs, i, l, l', x.added);
    FollowableRuns(gs.inodes, gs.used, fs.disk, PathOf(i, l'));
    SecondNumber(fs, gs, i, l, l', x.added);
    SecondUntouched(fs, gs, i, l, l');
    x' := Run(gs.inodes, gs.used, fs.disk, PathOf(i, l'));
  }

  // ---- the write ----

  /** What a turn needs: the tables it reads are on the disk, and so is the block it comes to. */
  ghost predicate Ready(fs: Fs, i: nat, l: nat, x: Outcome)
  {
    && Shaped(fs) && i < |fs.inodes| && Findable(fs, i, l) && |fs.used| > 0 && fs.used[0] && l <= SECOND_STAGE
    && RunOk(fs.inodes, fs.used, fs.disk, PathOf(i, l)) && x == Run(fs.inodes, fs.used, fs.disk, PathOf(i, l))
    && 0 < x.r < |fs.disk|
  }

  /** One turn of the loop in ext3_write, whatever the tables on the disk say. */
  method Turn(e: Ext3, i: nat, l: nat, at: nat, d: Bytes, ghost fs: Fs, ghost x: Outcome) returns (content: Words)
    requires e.View() == fs && Ready(fs, i, l, x) && at + |d| <= BLOCK
    modifies e`inodes, e`dirty, e`superFree, e`groupFree, e.bitmap
    ensures e.Drift() == old(e.Drift()) && e.View() == Fs(x.inodes, fs.disk, x.used)
    ensures e.dirty == [Dirty(x.r, content)] + (x.added + old(e.dirty))
    ensures |content| == PTRS && content == Patched(fs.disk[x.r], BlockOf(fs, i, l) != 0, at, d)
  {
    var existed, r := Locate(e, i, l);
    content := Patched(e.disk[r], existed != 0, at, d);
    e.MarkBlockDirty(r, content);
  }

  lemma SizesStay(inodes: seq<Inode>, used: seq<bool>, disk: seq<Words>, p: Path)
    requires HasInode(inodes, disk, p.i) && Reachable(p)
    ensures var x := Run(inodes, used, disk, p);
      |x.inodes| == |inodes| && x.inodes[p.i].size == inodes[p.i].size
  {}

  /** What the two turns come to. */
  ghost predicate Losing(fs: Fs, gs: Fs, i: nat, l: nat, x: Outcome, x': Outcome)
  {
    && Ready(fs, i, l, x) && Ready(Fs(x.inodes, fs.disk, x.used), i, l + 1, x')
    && BlockOf(fs, i, l) == 0 && |x'.inodes| == |fs.inodes| && x'.inodes[i].size == fs.inodes[i].size
    && Turned(fs, gs, i, l, l + 1, x, x')
  }

  lemma LosingTurns(fs: Fs, i: nat, l: nat) returns (gs: Fs, x: Outcome, x': Outcome)
    requires TwoClash(fs, i, l, l + 1)
    ensures Losing(fs, gs, i, l, x, x')
  {
    gs, x, x' := BothTurns(fs, i, l, l + 1);
    SizesStay(fs.inodes, fs.used, fs.disk, PathOf(i, l));
    SizesStay(gs.inodes, gs.used, fs.disk, PathOf(i, l + 1));
    InvFindable(fs, i, l);
    assert x.r == Slot(gs, PathOf(i, l));
  }

  lemma TurnsLose(fs: Fs, gs: Fs, i: nat, l: nat, x: Outcome, x': Outcome, w: Words, w': Words)
    requires Losing(fs, gs, i, l, x, x') && |w| == |w'| == PTRS
    ensures var y := WithData(x', x.r, w, w');
      Writable(y.added + x.added, |fs.disk|) && Lost(End(fs, x.added, y), i, l, l + 1, w)
  {
    SecondIsLost(fs, gs, i, l, l + 1, x, x', w, w');
  }

  lemma Joined<T>(d': T, added': seq<T>, d: T, added: seq<T>)
    ensures [d'] + (added' + ([d] + added)) == [d'] + added' + [d] + added
  {}

  /** Both turns, given what each of them finds. */
  method TurnsRun(e: Ext3, i: nat, l: nat, at: nat, d: Bytes, at': nat, d': Bytes, ghost fs: Fs, ghost x: Outcome,
                  ghost x': Outcome) returns (content: Words, content': Words)
    requires e.View() == fs && e.dirty == [] && at + |d| <= BLOCK && at' + |d'| <= BLOCK
    requires Ready(fs, i, l, x) && Ready(Fs(x.inodes, fs.disk, x.used), i, l + 1, x')
    modifies e`inodes, e`dirty, e`superFree, e`groupFree, e.bitmap
    ensures e.Drift() == old(e.Drift()) && |content| == |content'| == PTRS
    ensures content == Patched(fs.disk[x.r], BlockOf(fs, i, l) != 0, at, d)
    ensures e.View() == Fs(x'.inodes, fs.disk, x'.used)
    ensures e.dirty == WithData(x', x.r, content, content').added + x.added
  {
    content := Turn(e, i, l, at, d, fs, x);
    NothingBefore(x.added);
    content' := Turn(e, i, l + 1, at', d', Fs(x.inodes, fs.disk, x.used), x');
    Joined(Dirty(x'.r, content'), x'.added, Dirty(x.r, content), x.added);
  }

  method Turns(e: Ext3, i: nat, l: nat, at: nat, d: Bytes, at': nat, d': Bytes)
    requires e.dirty == [] && TwoClash(e.View(), i, l, l + 1) && at + |d| <= BLOCK && at' + |d'| <= BLOCK
    modifies e`inodes, e`dirty, e`superFree, e`groupFree, e.bitmap
    ensures e.Drift() == old(e.Drift()) && |e.inodes| == |old(e.inodes)| && e.inodes[i].size == old(e.inodes[i].size)
    ensures Writable(e.dirty, |e.disk|) &&
      Lost(Overlay(e.View(), e.dirty), i, l, l + 1, NewContent(ZeroBytes(), at, d))
  {
    ghost var fs := e.View();
    ghost var gs, x, x' := LosingTurns(fs, i, l);
    var content, content' := TurnsRun(e, i, l, at, d, at', d', fs, x, x');
    TurnsLose(fs, gs, i, l, x, x', content, content');
  }

  /** Where the two pieces of the write fall. */
  lemma TwoPieces(base: nat, count: nat, l: nat, n: nat)
    requires l == base / BLOCK && Touched(base, count) == l + 2 && n == ChunkSize(base, count)
    ensures 0 < n < count && base % BLOCK + n <= BLOCK && (base + n) / BLOCK == l + 1
    ensures ChunkSize(base + n, count - n) == count - n && (base + n) % BLOCK + (count - n) <= BLOCK
  {}

  /** The positions of the two turns, and their bytes. */
  method Cut(base: nat, buf: Bytes, ghost l: nat)
    returns (total: nat, last: nat, lblock: nat, at: nat, d: Bytes, at': nat, d': Bytes)
    requires base + |buf| < WORD && l == base / BLOCK && Touched(base, |buf|) == l + 2
    ensures total == |buf| && last == base + |buf| && lblock == l && at == base % BLOCK && d == buf[..ChunkSize(base, |buf|)]
    ensures at + |d| <= BLOCK && at' + |d'| <= BLOCK && d + d' == buf
  {
    TwoPieces(base, |buf|, l, ChunkSize(base, |buf|));
    InRange(base, 0);
    lblock, at, d := Split(Position(base, 0), buf);
    InRange(base, |d|);
    var second;
    second, at', d' := Split(Position(base, |d|), buf[|d|..]);
    total := |d| + |d'|;
    InRange(base, total);
    last := Position(base, total);
  }

  /** Sizes and block counts are not looked at on the way to a block. */
  lemma LostResized(end: Fs, i: nat, l: nat, l': nat, w: Words, size: int, nblocks: int)
    requires Lost(end, i, l, l', w)
    ensures Lost(Resized(end, i, size, nblocks), i, l, l', w)
  {}

  method LoseAt(e: Ext3, i: nat, l: nat, at: nat, d: Bytes, at': nat, d': Bytes, last: nat)
    requires e.dirty == [] && TwoClash(e.View(), i, l, l + 1) && at + |d| <= BLOCK && at' + |d'| <= BLOCK
    modifies e`inodes, e`disk, e`dirty, e`superFree, e`groupFree, e.bitmap
    ensures e.dirty == [] && e.Drift() == old(e.Drift()) && |e.inodes| == |old(e.inodes)|
    ensures e.inodes[i].size == SizeAfter(old(e.inodes[i].size), last)
    ensures Lost(e.View(), i, l, l + 1, NewContent(ZeroBytes(), at, d))
  {
    Turns(e, i, l, at, d, at', d');
    ghost var end := Overlay(e.View(), e.dirty);
    SizeAndFlush(e, i, last);
    LostResized(end, i, l, l + 1, NewContent(ZeroBytes(), at, d), e.inodes[i].size, e.inodes[i].nblocks);
  }

  /** ext3_write over two missing blocks that write one table: the count returned and the size are those of the whole
      write, the bytes for the first block are there, and the second block is not. */
  method WriteLoses(e: Ext3, i: nat, base: nat, buf: Bytes, ghost l: nat) returns (n: int, fpos': nat)
    requires e.dirty == [] && base + |buf| < WORD && l == base / BLOCK && Touched(base, |buf|) == l + 2
    requires TwoClash(e.View(), i, l, l + 1)
    modifies e`inodes, e`disk, e`dirty, e`superFree, e`groupFree, e.bitmap
    ensures n == Signed(|buf|) && fpos' == base + |buf| && |e.inodes| == |old(e.inodes)|
    ensures e.inodes[i].size == SizeAfter(old(e.inodes[i].size), base + |buf|)
    ensures base % BLOCK + ChunkSize(base, |buf|) <= BLOCK
    ensures Lost(e.View(), i, l, l + 1, NewContent(ZeroBytes(), base % BLOCK, buf[..ChunkSize(base, |buf|)]))
    ensures e.dirty == [] && e.Drift() == old(e.Drift())
  {
    var total, lblock, at, d, at', d';
    total, fpos', lblock, at, d, at', d' := Cut(base, buf, l);
    LoseAt(e, i, lblock, at, d, at', d', fpos');
    n := Signed(total);
  }

  /** A write over two missing adjacent blocks is either one that Ext3Files.Write accounts for or one that loses. */
  lemma KeepsOrLoses(fs: Fs, i: nat, l: nat)
    requires TwoMissing(fs, i, l, l + 1) && Blank(fs)
    ensures Room(fs, i, l, l + 2) <==> !TwoClash(fs, i, l, l + 1)
  {
    var p, p' := PathOf(i, l), PathOf(i, l + 1);
    NeedBounded(fs, p');
    assert Missing(fs, i, l, l + 2) == Need(fs, p) + Need(fs, p') by {
      assert Missing(fs, i, l + 1, l + 2) == Need(fs, p') + Missing(fs, i, l + 2, l + 2);
    }
    assert Unshared(fs, i, l, l + 2) ==> !Clash(fs, p, p');
  }

  lemma SmallClashes()
    ensures TwoClash(Small(), 0, 12, 13)
  {
    SmallLoses();
  }
}
