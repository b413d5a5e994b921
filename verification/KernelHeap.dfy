/** kalloc, aalloc, kfree and afree of memory.c over the linked descriptor lists. */
module KernelHeap {
  import Digits
  import opened HeapSpec
  import opened MemHoles

  datatype Outcome = Ok | NotHole | Illegal

  /** The descriptors s hold exactly the regions r. */
  ghost predicate Holds(s: seq<MemHole>, r: seq<Region>)
    reads s`base, s`size
  {
    |s| == |r| && forall k {:trigger Covers(s[k], r[k])} :: 0 <= k < |s| ==> Covers(s[k], r[k])
  }

  ghost predicate Covers(d: MemHole, r: Region)
    reads d`base, d`size
  {
    d.base == r.base && d.size == r.size
  }

  lemma HoldsCut(s: seq<MemHole>, r: seq<Region>, k: nat)
    requires Holds(s, r) && k < |s|
    ensures Holds(Cut(s, k), Without(r, k))
  {
    forall i | 0 <= i < |s| - 1 ensures Covers(Cut(s, k)[i], Without(r, k)[i]) {
      var j := if i < k then i else i + 1;
      assert Covers(s[j], r[j]);
    }
  }

  lemma HoldsPut(s: seq<MemHole>, r: seq<Region>, k: nat, p: MemHole)
    requires Holds(s, r) && k <= |s|
    ensures Holds(Put(s, k, p), Inserted(r, k, Region(p.base, p.size)))
  {
    forall i | 0 <= i <= |s| ensures Covers(Put(s, k, p)[i], Inserted(r, k, Region(p.base, p.size))[i]) {
      if i < k { assert Covers(s[i], r[i]); }
      if i > k { assert Covers(s[i - 1], r[i - 1]); }
    }
  }

  /** Different positions of a ring are different nodes. */
  lemma DistinctAt(h: MemHole, s: seq<MemHole>, n: nat, e: nat)
    requires h !in s && NoDuplicates(s) && n <= e <= |s| && At(h, s, n) == At(h, s, e)
    ensures n == e
  {}

  /** Hole p grown by the sizes of holes p+1 .. n-1. */
  ghost function Grown(r: seq<Region>, p: nat, n: nat): (s: seq<Region>)
    requires p < n <= |r|
    ensures |s| == |r|
  {
    r[p := Region(r[p].base, Sum(r[p..n]))]
  }

  lemma GrownNext(r: seq<Region>, p: nat, n: nat)
    requires p < n < |r|
    ensures Grown(r, p, n)[n] == r[n]
    ensures Grown(r, p, n + 1) == Grown(r, p, n)[p := Region(r[p].base, Grown(r, p, n)[p].size + r[n].size)]
  {
    assert r[p..n + 1] == r[p..n] + [r[n]];
    SumConcat(r[p..n], [r[n]]);
    assert [r[n]][1..] == [];
  }

  lemma GrownFirst(r: seq<Region>, p: nat)
    requires p < |r|
    ensures Grown(r, p, p + 1) == r
  {
    assert r[p..p + 1] == [r[p]] && [r[p]][1..] == [] && Sum([r[p]]) == r[p].size;
    assert r[p := r[p]] == r;
  }

  /** Nodes, or regions, a .. n-1 gone. */
  ghost function NodesLeft(c: seq<MemHole>, a: nat, n: nat): seq<MemHole>
    requires a <= n <= |c|
  {
    c[..a] + c[n..]
  }

  ghost function RegionsLeft(r: seq<Region>, a: nat, n: nat): seq<Region>
    requires a <= n <= |r|
  {
    r[..a] + r[n..]
  }

  lemma AllLeft(c: seq<MemHole>, r: seq<Region>, a: nat)
    requires a <= |c| == |r|
    ensures NodesLeft(c, a, a) == c && RegionsLeft(r, a, a) == r
  {}

  lemma OneFewer(c: seq<MemHole>, r: seq<Region>, a: nat, n: nat, h: MemHole)
    requires a <= n < |c| == |r|
    ensures NodesLeft(c, a, n)[a] == c[n] && Cut(NodesLeft(c, a, n), a) == NodesLeft(c, a, n + 1)
    ensures At(h, NodesLeft(c, a, n), a + 1) == At(h, c, n + 1)
    ensures Without(RegionsLeft(r, a, n), a) == RegionsLeft(r, a, n + 1)
  {}

  /** Regions p .. e-1 replaced by one region of their total size. */
  ghost function Fused(r: seq<Region>, p: nat, e: nat): seq<Region>
    requires p < e <= |r|
  {
    RegionsLeft(Grown(r, p, e), p + 1, e)
  }

  /** The three merges of the code are the two possible joins of the specification. */
  lemma FusedIsJoined(s: seq<Region>, p: nat)
    requires p + 1 < |s|
    ensures p > 0 ==> (Touch(s, p - 1) <==> Touch(if Touch(s, p) then Joined(s, p) else s, p - 1))
    ensures p > 0 ==> Fused(s, p - 1, p + 1) == Joined(s, p - 1)
    ensures Fused(s, p, p + 2) == Joined(s, p)
    ensures p > 0 ==> Fused(s, p - 1, p + 2) == Joined(Joined(s, p), p - 1)
  {
    FuseTwo(s, p);
    if p > 0 {
      FuseTwo(s, p - 1);
      FuseThree(s, p - 1);
    }
  }

  lemma FuseTwo(s: seq<Region>, p: nat)
    requires p + 1 < |s|
    ensures Fused(s, p, p + 2) == Joined(s, p)
  {
    SumOfTwo(s, p);
  }

  lemma FuseThree(s: seq<Region>, p: nat)
    requires p + 2 < |s|
    ensures Fused(s, p, p + 3) == Joined(Joined(s, p + 1), p)
  {
    SumOfTwo(s, p + 1);
    assert s[p..p + 3][1..] == s[p + 1..p + 3];
  }

  lemma SumOfTwo(s: seq<Region>, p: nat)
    requires p + 1 < |s|
    ensures Sum(s[p..p + 2]) == s[p].size + s[p + 1].size
  {
    assert s[p..p + 2][1..] == [s[p + 1]] && [s[p + 1]][1..] == [];
    assert Sum([s[p + 1]]) == s[p + 1].size;
  }

  /** A released block, or the block before it on the used list. */
  ghost predicate Stale(from: MemHole, g: Lists, k: nat)
  {
    k <= |g.useds| && (Loose(from, g) || (k > 0 && from == g.useds[k - 1]))
  }

  ghost function Widened(r: seq<Region>, k: nat, more: int): (s: seq<Region>)
    requires 0 < k <= |r|
  {
    r[k - 1 := Region(r[k - 1].base, r[k - 1].size + more)]
  }

  /** Used block k goes to the spares, its size to the block before it unless that is on no list. */
  ghost function Swallowed(h: HeapSpec.Heap, k: nat, loose: bool): HeapSpec.Heap
    requires k < |h.useds| && (loose || k > 0)
  {
    HeapSpec.Heap(h.frees, Without(if loose then h.useds else Widened(h.useds, k, h.useds[k].size), k), h.spares + 1)
  }

  class Heap {
    const holeList: MemHole
    const freeList: MemHole
    const useList: MemHole
    ghost var g: Lists
    ghost var view: HeapSpec.Heap      // the lists as values: what HeapSpec speaks about

    ghost predicate Valid()
      reads `g, `view, g.all`next, g.all`prev, g.all`base, g.all`size
    {
      && g.holeList == holeList && g.freeList == freeList && g.useList == useList && Rings(g)
      && freeList.base == 0 && freeList.size == 0 && useList.base == 0 && useList.size == 0
      && Holds(g.frees, view.frees) && Holds(g.useds, view.useds) && |g.spares| == view.spares
    }

    // Each list operation keeps Valid; in between, a descriptor may be on no list.

    method PopFree(i: MemHole, ghost n: nat)
      requires Valid() && n < |g.frees| && g.frees[n] == i
      modifies `g, `view, g.all`next, g.all`prev
      ensures Valid() && g == old(g).(frees := Cut(old(g).frees, n)) && Loose(i, g)
      ensures view == old(view).(frees := Without(old(view).frees, n))
    {
      g := DetachFree(i, g, n);
      HoldsCut(old(g).frees, view.frees, n);
      view := view.(frees := Without(view.frees, n));
    }

    method PopUsed(p: MemHole, ghost k: nat)
      requires Valid() && k < |g.useds| && g.useds[k] == p
      modifies `g, `view, g.all`next, g.all`prev
      ensures Valid() && g == old(g).(useds := Cut(old(g).useds, k)) && Loose(p, g)
      ensures view == old(view).(useds := Without(old(view).useds, k))
      ensures p.prev == At(useList, old(g).useds, k - 1) && p.next == At(useList, old(g).useds, k + 1)
    {
      g := DetachUsed(p, g, k);
      HoldsCut(old(g).useds, view.useds, k);
      view := view.(useds := Without(view.useds, k));
    }

    /** new_mhole. */
    method PopSpare() returns (d: MemHole)
      requires Valid() && g.spares != []
      modifies `g, `view, g.all`next, g.all`prev
      ensures Valid() && d == old(g).spares[0] && g == old(g).(spares := Cut(old(g).spares, 0)) && Loose(d, g)
      ensures view == old(view).(spares := old(view).spares - 1)
    {
      d, g := DetachSpare(holeList, g);
      view := view.(spares := view.spares - 1);
    }

    method PushUsed(p: MemHole)
      requires Valid() && Loose(p, g)
      modifies `g, `view, g.all`next, g.all`prev
      ensures Valid() && g == old(g).(useds := [p] + old(g).useds)
      ensures view == old(view).(useds := [Region(p.base, p.size)] + old(view).useds)
    {
      g := AttachUsed(p, useList, g);
      HoldsPut(old(g).useds, view.useds, 0, p);
      assert Put(old(g).useds, 0, p) == g.useds &&
        Inserted(view.useds, 0, Region(p.base, p.size)) == [Region(p.base, p.size)] + view.useds;
      view := view.(useds := [Region(p.base, p.size)] + view.useds);
    }

    method PushSpare(p: MemHole)
      requires Valid() && Loose(p, g)
      modifies `g, `view, g.all`next, g.all`prev
      ensures Valid() && g == old(g).(spares := [p] + old(g).spares)
      ensures view == old(view).(spares := old(view).spares + 1)
    {
      g := AttachSpare(p, holeList, g);
      view := view.(spares := view.spares + 1);
    }

    method PutFree(p: MemHole, ep: MemHole, ghost k: nat)
      requires Valid() && Loose(p, g) && k < |g.frees| && g.frees[k] == ep
      modifies `g, `view, g.all`next, g.all`prev
      ensures Valid() && g == old(g).(frees := Put(old(g).frees, k, p))
      ensures view == old(view).(frees := Inserted(old(view).frees, k, Region(p.base, p.size)))
      ensures p.prev == At(freeList, old(g).frees, k - 1) && p.next == ep
    {
      g := AttachFreeBefore(p, ep, g, k);
      HoldsPut(old(g).frees, view.frees, k, p);
      view := view.(frees := Inserted(view.frees, k, Region(p.base, p.size)));
    }

    /** Give hole n a new extent. */
    method Resize(i: MemHole, ghost n: nat, base: int, size: int)
      requires Valid() && n < |g.frees| && g.frees[n] == i
      modifies `view, i`base, i`size
      ensures Valid() && view == old(view).(frees := old(view).frees[n := Region(base, size)])
    {
      assert i in g.frees && forall k :: 0 <= k < |g.useds| ==> g.useds[k] in g.useds && g.useds[k] != i;
      assert forall k :: 0 <= k < |g.useds| ==> Covers(g.useds[k], view.useds[k]);
      assert forall k :: 0 <= k < |g.frees| && k != n ==> Covers(g.frees[k], view.frees[k]) && g.frees[k] != i;
      i.base := base;
      i.size := size;
      view := view.(frees := view.frees[n := Region(base, size)]);
    }

    /** A descriptor on no list may be rewritten. */
    method SetExtent(d: MemHole, base: int, size: int)
      requires Valid() && Loose(d, g)
      modifies d`base, d`size
      ensures Valid() && d.base == base && d.size == size
    {
      assert forall k :: 0 <= k < |g.useds| ==> Covers(g.useds[k], view.useds[k]) && g.useds[k] in g.useds;
      assert forall k :: 0 <= k < |g.frees| ==> Covers(g.frees[k], view.frees[k]) && g.frees[k] in g.frees;
      d.base := base;
      d.size := size;
    }

    /** The whole hole i, at position n, becomes the newest used block. */
    method TakeWhole(i: MemHole, ghost n: nat)
      requires Valid() && n < |g.frees| && g.frees[n] == i
      modifies `g, `view, g.all`next, g.all`prev
      ensures Valid() && g == old(g).(frees := Cut(old(g).frees, n), useds := [i] + old(g).useds)
      ensures view == HeapSpec.Heap(Without(old(view).frees, n), [old(view).frees[n]] + old(view).useds,
        old(view).spares)
    {
      assert Covers(g.frees[n], view.frees[n]);
      PopFree(i, n);
      PushUsed(i);
    }

    /** Hole i shrinks from below by size bytes, which become the newest used block. */
    method TakeSplit(i: MemHole, ghost n: nat, size: int) returns (d: MemHole)
      requires Valid() && n < |g.frees| && g.frees[n] == i && g.spares != []
      modifies `g, `view, g.all`next, g.all`prev, g.all`base, g.all`size
      ensures Valid() && d == old(g).spares[0] && d.base == old(view).frees[n].base
      ensures g == old(g).(spares := Cut(old(g).spares, 0), useds := [d] + old(g).useds)
      ensures var hole := old(view).frees[n];
        view == HeapSpec.Heap(old(view).frees[n := Region(hole.base + size, hole.size - size)],
                              [Region(hole.base, size)] + old(view).useds, old(view).spares - 1)
    {
      assert Covers(g.frees[n], view.frees[n]) && i in g.frees;
      d := PopSpare();
      SetExtent(d, i.base, size);
      Resize(i, n, i.base + size, i.size - size);
      PushUsed(d);
    }

    /** used_check: does a used block start at this hole's base? The source hangs if so. */
    method UsedCheck(mem: MemHole) returns (clash: bool)
      requires Valid()
      ensures clash <==> exists k :: 0 <= k < |g.useds| && g.useds[k].base == mem.base
    {
      clash := false;
      assert Linked(useList, g.useds, -1);
      var i := useList.next;
      ghost var n := 0;
      while i != useList
        invariant 0 <= n <= |g.useds| && i == At(useList, g.useds, n)
        invariant clash <==> exists k :: 0 <= k < n && g.useds[k].base == mem.base
        decreases |g.useds| - n
      {
        assert Linked(useList, g.useds, n);
        if i.base == mem.base { clash := true; }
        i := i.next;
        n := n + 1;
      }
    }

    /** Carve size bytes from hole i at position n, as every allocation path does. */
    method TakeFrom(i: MemHole, ghost n: nat, size: int, ghost lo: int, ghost hi: int) returns (d: MemHole)
      requires Valid() && n < |g.frees| && g.frees[n] == i && Tiled(view.frees, view.useds, lo, hi)
      requires Splits(view.frees[n], size) ==> g.spares != []
      modifies `g, `view, g.all`next, g.all`prev, g.all`base, g.all`size
      ensures Valid() && view == Carve(old(view), n, size) && d.base == old(view).frees[n].base
      ensures g.all == old(g).all && g.useds == [d] + old(g).useds
    {
      assert Covers(g.frees[n], view.frees[n]);
      var clash := UsedCheck(i);
      if clash {
        ghost var k :| 0 <= k < |g.useds| && g.useds[k].base == i.base;
        assert Covers(g.useds[k], view.useds[k]);
        HoleIsUnused(view.frees, view.useds, lo, hi, n, k);
        assert false;
      }
      if i.size - size > 32 {
        d := TakeSplit(i, n, size);
      } else {
        TakeWhole(i, n);
        d := i;
      }
    }

    method Kalloc(size: int, ghost lo: int, ghost hi: int) returns (ptr: int)
      requires Valid() && Tiled(view.frees, view.useds, lo, hi) && Demands(view, Op.Kalloc(size))
      modifies `g, `view, g.all`next, g.all`prev, g.all`base, g.all`size
      ensures Valid() && view == Apply(old(view), Op.Kalloc(size))
      ensures var i := FirstFit(old(view).frees, size);
        ptr == if i < |old(view).frees| then old(view).frees[i].base else 0
    {
      assert Linked(freeList, g.frees, -1);
      var i := freeList.next;
      ghost var n := 0;
      while i != freeList
        invariant 0 <= n <= |g.frees| && i == At(freeList, g.frees, n)
        invariant forall k :: 0 <= k < n ==> view.frees[k].size < size
        decreases |g.frees| - n
      {
        assert Linked(freeList, g.frees, n) && Covers(g.frees[n], view.frees[n]);
        if i.size >= size {
          var d := TakeFrom(i, n, size, lo, hi);
          ptr := d.base;
          return;
        }
        i := i.next;
        n := n + 1;
      }
      ptr := 0;
    }

    // ---- merge_hole ----

    /** First loop: hole p absorbs the sizes of holes p+1 .. e-1. */
    method AbsorbSizes(from: MemHole, to: MemHole, ghost p: nat, ghost e: nat)
      requires Valid() && p < e <= |g.frees| && g.frees[p] == from && to.next == At(freeList, g.frees, e)
      modifies `view, from`base, from`size
      ensures Valid() && view == old(view).(frees := Grown(old(view).frees, p, e))
    {
      ghost var r, v, c := view.frees, view, g.frees;
      assert freeList !in c && NoDuplicates(c) && Linked(freeList, c, p);
      GrownFirst(r, p);
      var i := from.next;
      ghost var n := p + 1;
      while i != to.next
        invariant p < n <= e && i == At(freeList, c, n)
        invariant Valid() && view == v.(frees := Grown(r, p, n))
        decreases e - n
      {
        assert n < e && Linked(freeList, c, n) && Covers(g.frees[n], view.frees[n]) && Covers(from, view.frees[p]);
        assert from in c;
        GrownNext(r, p, n);
        Resize(from, p, from.base, from.size + i.size);
        i := i.next;
        n := n + 1;
      }
      DistinctAt(freeList, c, n, e);
    }

    /** Node a leaves the free list, is cleaned, and becomes the first spare. */
    method Recycle(i: MemHole, ghost a: nat)
      requires Valid() && a < |g.frees| && g.frees[a] == i
      modifies `g, `view, g.all`next, g.all`prev, i`base, i`size
      ensures Valid() && g == old(g).(frees := Cut(old(g).frees, a), spares := [i] + old(g).spares)
      ensures view == old(view).(frees := Without(old(view).frees, a), spares := old(view).spares + 1)
    {
      PopFree(i, a);
      SetExtent(i, 0, 0);
      PushSpare(i);
    }

    /** One turn of the second loop, when nodes a .. n-1 of the list c are already gone. */
    method RecycleTurn(i: MemHole, ghost a: nat, ghost n: nat, ghost c: seq<MemHole>, ghost r: seq<Region>)
      returns (j: MemHole, ghost n': nat)
      requires Valid() && a <= n < |c| == |r| && i == c[n]
      requires g.frees == NodesLeft(c, a, n) && view.frees == RegionsLeft(r, a, n)
      modifies `g, `view, g.all`next, g.all`prev, i`base, i`size
      ensures Valid() && g.all == old(g).all && n' == n + 1 && j == At(freeList, c, n')
      ensures g.frees == NodesLeft(c, a, n')
      ensures view == old(view).(frees := RegionsLeft(r, a, n'), spares := old(view).spares + 1)
    {
      ghost var left, rest := NodesLeft(c, a, n + 1), RegionsLeft(r, a, n + 1);
      OneFewer(c, r, a, n, freeList);
      assert Cut(g.frees, a) == left && Without(view.frees, a) == rest;
      assert Linked(freeList, g.frees, a);
      j := i.next;
      Recycle(i, a);
      n' := n + 1;
    }

    /** Second loop: holes p+1 .. e-1 leave the list and their descriptors become spares. */
    method RecycleNodes(from: MemHole, to: MemHole, ghost p: nat, ghost e: nat)
      requires Valid() && p < e <= |g.frees| && g.frees[p] == from && to.next == At(freeList, g.frees, e)
      modifies `g, `view, g.all`next, g.all`prev, g.all`base, g.all`size
      ensures Valid() && g.all == old(g).all
      ensures view == old(view).(frees := RegionsLeft(old(view).frees, p + 1, e),
        spares := old(view).spares + (e - p - 1))
    {
      ghost var r, v, c := view.frees, view, g.frees;
      assert freeList !in c && NoDuplicates(c) && Linked(freeList, c, p);
      var i := from.next;
      var next := to.next;
      ghost var n := p + 1;
      AllLeft(c, r, p + 1);
      while i != next
        invariant p < n <= e && i == At(freeList, c, n) && g.all == old(g).all
        invariant Valid() && g.frees == NodesLeft(c, p + 1, n)
        invariant view == v.(frees := RegionsLeft(r, p + 1, n), spares := v.spares + (n - p - 1))
        decreases e - n
      {
        assert n < e;
        i, n := RecycleTurn(i, p + 1, n, c, r);
      }
      DistinctAt(freeList, c, n, e);
    }

    /** merge_hole: holes p .. e-1 become one. */
    method MergeHole(from: MemHole, to: MemHole, ghost p: nat, ghost e: nat)
      requires Valid() && p < e <= |g.frees| && g.frees[p] == from && g.frees[e - 1] == to
      modifies `g, `view, g.all`next, g.all`prev, g.all`base, g.all`size
      ensures Valid() && g.all == old(g).all
      ensures view == old(view).(frees := Fused(old(view).frees, p, e), spares := old(view).spares + (e - p - 1))
    {
      assert Linked(freeList, g.frees, e - 1) && from in g.frees;
      AbsorbSizes(from, to, p, e);
      RecycleNodes(from, to, p, e);
    }

    // ---- releasing ----

    /** Merge the hole just linked at position p with whichever neighbours it touches. */
    method Coalesce(mem: MemHole, ghost p: nat)
      requires Valid() && p + 1 < |g.frees| && g.frees[p] == mem && mem.base > 0
      requires mem.prev == At(freeList, g.frees, p - 1) && mem.next == g.frees[p + 1]
      modifies `g, `view, g.all`next, g.all`prev, g.all`base, g.all`size
      ensures Valid() && g.all == old(g).all
      ensures view == old(view).(frees := Coalesced(old(view).frees, p),
                                 spares := old(view).spares + |old(view).frees| - |Coalesced(old(view).frees, p)|)
    {
      ghost var s := view.frees;
      assert Covers(g.frees[p], s[p]) && Covers(g.frees[p + 1], s[p + 1]);
      if p > 0 { assert Covers(g.frees[p - 1], s[p - 1]); }
      FusedIsJoined(s, p);
      if mem.prev.base + mem.prev.size == mem.base && mem.base + mem.size == mem.next.base {
        MergeHole(mem.prev, mem.next, p - 1, p + 2);
      } else if mem.prev.base + mem.prev.size == mem.base {
        MergeHole(mem.prev, mem, p - 1, p + 1);
      } else if mem.base + mem.size == mem.next.base {
        MergeHole(mem, mem.next, p, p + 2);
      }
    }

    /** The first hole above base, in list order. */
    method FindAbove(base: int) returns (i: MemHole, ghost n: nat)
      requires Valid()
      ensures n == Above(view.frees, base) && i == At(freeList, g.frees, n)
    {
      assert Linked(freeList, g.frees, -1);
      i := freeList.next;
      n := 0;
      while i != freeList
        invariant 0 <= n <= |g.frees| && i == At(freeList, g.frees, n)
        invariant forall k :: 0 <= k < n ==> view.frees[k].base <= base
        decreases |g.frees| - n
      {
        assert Linked(freeList, g.frees, n) && Covers(g.frees[n], view.frees[n]);
        if i.base > base { return; }
        i := i.next;
        n := n + 1;
      }
    }

    // ---- releasing with no hole above ----

    /** A block that is on no list, or the used block before position k, grows. */
    method GrowStale(from: MemHole, more: int, ghost k: nat)
      requires Valid() && Stale(from, g, k)
      modifies `view, from`size
      ensures Valid()
      ensures view == if Loose(from, g) then old(view) else old(view).(useds := Widened(old(view).useds, k, more))
    {
      assert forall j :: 0 <= j < |g.frees| ==> Covers(g.frees[j], view.frees[j]) && g.frees[j] in g.frees;
      assert forall j :: 0 <= j < |g.useds| ==> Covers(g.useds[j], view.useds[j]) && g.useds[j] in g.useds;
      from.size := from.size + more;
      if !Loose(from, g) { view := view.(useds := Widened(view.useds, k, more)); }
    }

    /** Used block a leaves its list, is cleaned, and becomes the first spare. */
    method RecycleUsed(i: MemHole, ghost a: nat)
      requires Valid() && a < |g.useds| && g.useds[a] == i
      modifies `g, `view, g.all`next, g.all`prev, i`base, i`size
      ensures Valid() && g == old(g).(useds := Cut(old(g).useds, a), spares := [i] + old(g).spares)
      ensures view == old(view).(useds := Without(old(view).useds, a), spares := old(view).spares + 1)
    {
      PopUsed(i, a);
      SetExtent(i, 0, 0);
      PushSpare(i);
    }

    method AbsorbStale(from: MemHole, to: MemHole, ghost k: nat, ghost e: nat)
      requires Valid() && Stale(from, g, k) && k <= e <= k + 1 && e <= |g.useds|
      requires from.next == At(useList, g.useds, k) && to.next == At(useList, g.useds, e)
      modifies `view, from`size
      ensures Valid()
      ensures view == if e == k || Loose(from, g) then old(view)
                      else old(view).(useds := Widened(old(view).useds, k, old(view).useds[k].size))
    {
      ghost var v, c := view, g.useds;
      assert useList !in c && NoDuplicates(c);
      var i := from.next;
      ghost var n := k;
      while i != to.next
        invariant k <= n <= e && i == At(useList, c, n) && Valid()
        invariant view == if n == k || Loose(from, g) then v else v.(useds := Widened(v.useds, k, v.useds[k].size))
        decreases e - n
      {
        assert n == k < e && Linked(useList, c, n) && Covers(g.useds[n], v.useds[n]);
        GrowStale(from, i.size, k);
        i := i.next;
        n := n + 1;
      }
      DistinctAt(useList, c, n, e);
    }

    method RecycleStale(from: MemHole, to: MemHole, ghost k: nat, ghost e: nat)
      requires Valid() && k <= e <= k + 1 && e <= |g.useds|
      requires from.next == At(useList, g.useds, k) && to.next == At(useList, g.useds, e)
      modifies `g, `view, g.all`next, g.all`prev, g.all`base, g.all`size
      ensures Valid() && g.all == old(g).all
      ensures view == if e == k then old(view)
                      else old(view).(useds := Without(old(view).useds, k), spares := old(view).spares + 1)
    {
      ghost var v, c := view, g;
      assert useList !in c.useds && NoDuplicates(c.useds);
      var i := from.next;
      var next := to.next;
      ghost var n := k;
      while i != next
        invariant k <= n <= e && i == At(useList, c.useds, n) && Valid() && g.all == c.all
        invariant n == k ==> g == c && view == v
        invariant n > k ==> view == v.(useds := Without(v.useds, k), spares := v.spares + 1)
        decreases e - n
      {
        assert n == k < e && Linked(useList, g.useds, n);
        var j := i.next;
        RecycleUsed(i, n);
        i := j;
        n := n + 1;
      }
      DistinctAt(useList, c.useds, n, e);
    }

    /** merge_hole along the links that a released block still has into the used list. */
    method MergeStale(from: MemHole, to: MemHole, ghost k: nat, ghost e: nat)
      requires Valid() && Stale(from, g, k) && k <= e <= k + 1 && e <= |g.useds|
      requires from.next == At(useList, g.useds, k) && to.next == At(useList, g.useds, e)
      modifies `g, `view, g.all`next, g.all`prev, g.all`base, g.all`size
      ensures Valid() && g.all == old(g).all
      ensures view == if e == k then old(view) else Swallowed(old(view), k, Loose(from, old(g)))
    {
      AbsorbStale(from, to, k, e);
      RecycleStale(from, to, k, e);
    }

    /** The end of _internal_common_merge for a block that was linked nowhere. */
    method LoseBlock(mem: MemHole, ghost k: nat, ghost v: HeapSpec.Heap)
      requires Valid() && k < |v.useds| && view == v.(useds := Without(v.useds, k)) && Loose(mem, g)
      requires mem.base == v.useds[k].base > 0 && mem.size == v.useds[k].size > 0
      requires mem.prev == At(useList, g.useds, k - 1) && mem.next == At(useList, g.useds, k)
      modifies `g, `view, g.all`next, g.all`prev, g.all`base, g.all`size
      ensures Valid() && g.all == old(g).all && view == Lost(v, k)
    {
      if k > 0 { assert Linked(useList, g.useds, k - 1) && Covers(g.useds[k - 1], view.useds[k - 1]); }
      if k < |g.useds| { assert Linked(useList, g.useds, k) && Covers(g.useds[k], view.useds[k]); }
      if mem.prev.base + mem.prev.size == mem.base && mem.base + mem.size == mem.next.base {
        MergeStale(mem.prev, mem.next, k, k + 1);
      } else if mem.prev.base + mem.prev.size == mem.base {
        MergeStale(mem.prev, mem, k, k);
      } else if mem.base + mem.size == mem.next.base {
        MergeStale(mem, mem.next, k, k + 1);
      }
    }

    /** _internal_common_merge on used block k, whether or not a hole lies above it. */
    method InternalMerge(mem: MemHole, ghost k: nat, ghost lo: int, ghost hi: int) returns (r: Outcome)
      requires Valid() && Tiled(view.frees, view.useds, lo, hi) && lo > 0
      requires k < |g.useds| && g.useds[k] == mem
      modifies `g, `view, g.all`next, g.all`prev, g.all`base, g.all`size
      ensures Valid() && r == Ok && view == FreeStep(old(view), k)
    {
      ghost var v, block := view, view.useds[k];
      assert Covers(g.useds[k], v.useds[k]) && InPool(block, lo, hi);
      PopUsed(mem, k);
      var i, n := FindAbove(mem.base);
      if i == freeList {
        LoseBlock(mem, k, v);
        return Ok;
      }
      Neighbours(v.frees, v.useds, lo, hi, k);
      assert Covers(g.frees[n], view.frees[n]);
      if mem.base + mem.size > i.base { return Illegal; }
      LinkBack(mem, i, k, n, v);
      r := Ok;
    }

    /** The block goes before the hole above it, and is merged. */
    method LinkBack(mem: MemHole, i: MemHole, ghost k: nat, ghost n: nat, ghost v: HeapSpec.Heap)
      requires Valid() && k < |v.useds| && view == v.(useds := Without(v.useds, k)) && Loose(mem, g)
      requires mem.base == v.useds[k].base > 0 && mem.size == v.useds[k].size
      requires n == Above(v.frees, mem.base) < |g.frees| && g.frees[n] == i
      modifies `g, `view, g.all`next, g.all`prev, g.all`base, g.all`size
      ensures Valid() && HoleAbove(v.frees, v.useds[k].base) && view == Freed(v, k)
    {
      PutFree(mem, i, n);
      assert g.frees[n] == mem && g.frees[n + 1] == i;
      Coalesce(mem, n);
    }

    /** _search_used_mhole. */
    method SearchUsed(ptr: int) returns (found: bool, mem: MemHole, ghost k: nat)
      requires Valid()
      ensures found ==> k < |g.useds| && g.useds[k] == mem && view.useds[k].base == ptr
      ensures !found ==> forall j :: 0 <= j < |view.useds| ==> view.useds[j].base != ptr
    {
      assert Linked(useList, g.useds, -1);
      mem := useList.next;
      k := 0;
      while mem != useList
        invariant 0 <= k <= |g.useds| && mem == At(useList, g.useds, k)
        invariant forall j :: 0 <= j < k ==> view.useds[j].base != ptr
        decreases |g.useds| - k
      {
        assert Linked(useList, g.useds, k) && Covers(g.useds[k], view.useds[k]);
        if mem.base == ptr { return true, mem, k; }
        mem := mem.next;
        k := k + 1;
      }
      found := false;
    }

    /** kfree. */
    method Kfree(ptr: int, ghost lo: int, ghost hi: int) returns (r: Outcome)
      requires Valid() && Tiled(view.frees, view.useds, lo, hi) && lo > 0
      modifies `g, `view, g.all`next, g.all`prev, g.all`base, g.all`size
      ensures Valid()
      ensures (exists k :: 0 <= k < |old(view).useds| && old(view).useds[k].base == ptr) ==>
        r == Ok && exists k ::
          0 <= k < |old(view).useds| && old(view).useds[k].base == ptr && view == FreeStep(old(view), k)
      ensures (forall k :: 0 <= k < |old(view).useds| ==> old(view).useds[k].base != ptr) ==>
        r == NotHole && view == old(view)
    {
      var found, mem, k := SearchUsed(ptr);
      if !found { return NotHole; }
      r := InternalMerge(mem, k, lo, hi);
    }

    // ---- aligned allocation ----

    /** aalloc. The demand: no 32-bit sum of the alignment arithmetic wraps. */
    method Aalloc(size: int, alignBit: nat, ghost lo: int, ghost hi: int) returns (ptr: int)
      requires Valid() && Tiled(view.frees, view.useds, lo, hi) && lo > 0
      requires alignBit <= 32 ==> Digits.Pow(2, alignBit) > 0 && Demands(view, Op.Aalloc(size, Digits.Pow(2, alignBit)))
      requires alignBit <= 32 ==> hi + 2 * Digits.Pow(2, alignBit) + size < 0x1_0000_0000
      modifies `g, `view, g.all`next, g.all`prev, g.all`base, g.all`size, g.all`alignBase
      ensures Valid()
      ensures alignBit > 32 ==> ptr == 0 && view == old(view)
      ensures alignBit <= 32 ==> view == Apply(old(view), Op.Aalloc(size, Digits.Pow(2, alignBit)))
      ensures ptr != 0 ==>
        alignBit <= 32 && ptr % Digits.Pow(2, alignBit) == 0 && g.useds != [] && g.useds[0].alignBase == ptr
      ensures ptr != 0 ==> view.useds[0].base <= ptr && ptr + size <= view.useds[0].End()
    {
      if alignBit > 32 { return 0; }
      var block := Digits.Pow(2, alignBit);
      var blockSize := AlignUp(size, block);
      AlignUpBounds(size, block);
      assert Linked(freeList, g.frees, -1);
      var i := freeList.next;
      ghost var n := 0;
      while i != freeList
        invariant 0 <= n <= |g.frees| && i == At(freeList, g.frees, n)
        invariant forall k :: 0 <= k < n ==> view.frees[k].size < AlignedNeed(view.frees[k], size, block)
        decreases |g.frees| - n
      {
        assert Linked(freeList, g.frees, n) && Covers(g.frees[n], view.frees[n]);
        var alignBase := AlignUp(i.base, block);
        var allocSize := alignBase + blockSize - i.base;
        if i.size >= allocSize {
          AlignUpBounds(i.base, block);
          assert InPool(view.frees[n], lo, hi);
          ghost var hole := view.frees[n];
          var d := TakeFrom(i, n, allocSize, lo, hi);
          assert view.useds[0] == Block(hole, allocSize);
          d.alignBase := alignBase;
          return alignBase;
        }
        i := i.next;
        n := n + 1;
      }
      ptr := 0;
    }

    /** afree releases the newest used block whose recorded aligned address is ptr. */
    method Afree(ptr: int, ghost lo: int, ghost hi: int) returns (r: Outcome, ghost k: nat)
      requires Valid() && Tiled(view.frees, view.useds, lo, hi) && lo > 0
      modifies `g, `view, g.all`next, g.all`prev, g.all`base, g.all`size
      ensures Valid() && k <= |old(g).useds| && forall j :: 0 <= j < k ==> old(g.useds)[j].alignBase != ptr
      ensures k < |old(g).useds| ==> old(g.useds)[k].alignBase == ptr && r == Ok && view == FreeStep(old(view), k)
      ensures k == |old(g).useds| ==> r == NotHole && view == old(view)
    {
      assert Linked(useList, g.useds, -1);
      var mem := useList.next;
      k := 0;
      while mem != useList
        invariant 0 <= k <= |g.useds| && mem == At(useList, g.useds, k)
        invariant forall j :: 0 <= j < k ==> g.useds[j].alignBase != ptr
        decreases |g.useds| - k
      {
        assert Linked(useList, g.useds, k);
        if mem.alignBase == ptr {
          r := InternalMerge(mem, k, lo, hi);
          return;
        }
        mem := mem.next;
        k := k + 1;
      }
      r := NotHole;
    }

    // ---- init_hole_pool ----

    /** All descriptors spare; then the first becomes the one hole covering the pool. */
    constructor (count: nat, base: int, size: int)
      requires count >= 1
      ensures Valid() && fresh(g.all) && view == Initial(base, size, count)
    {
      var h0 := new MemHole();
      var h1 := new MemHole();
      var h2 := new MemHole();
      holeList, freeList, useList := h0, h1, h2;
      g := Lists({h0, h1, h2}, h0, h1, h2, [], [], []);
      view := HeapSpec.Heap([], [], 0);
      new;
      var i := 0;
      while i < count
        invariant 0 <= i <= count && |g.spares| == i && g.frees == [] && g.useds == []
        invariant Valid() && fresh(g.all)
      {
        var d := new MemHole();
        AddDescriptor(d);
        i := i + 1;
      }
      FirstHole(base, size);
    }

    method FirstHole(base: int, size: int)
      requires Valid() && g.spares != [] && g.frees == []
      modifies `g, `view, g.all`next, g.all`prev, g.all`base, g.all`size
      ensures Valid() && g.all == old(g).all
      ensures view == HeapSpec.Heap([Region(base, size)], old(view).useds, old(view).spares - 1)
    {
      var mem := PopSpare();
      SetExtent(mem, base, size);
      LinkHead(mem, freeList, g.frees);
      assert [mem] + g.frees == [mem];
      HoldsPut(g.frees, view.frees, 0, mem);
      assert Put(g.frees, 0, mem) == [mem] &&
        Inserted(view.frees, 0, Region(base, size)) == [Region(base, size)] == view.frees + [Region(base, size)];
      g := g.(frees := [mem]);
      view := view.(frees := [Region(base, size)]);
    }

    method AddDescriptor(d: MemHole)
      requires Valid() && d !in g.all
      modifies `g, `view, g.all`next, g.all`prev, d`next, d`prev
      ensures Valid() && g == old(g).(all := old(g).all + {d}, spares := old(g).spares + [d])
      ensures view == old(view).(spares := old(view).spares + 1)
    {
      LinkTail(d, holeList, g.spares);
      g := g.(all := g.all + {d}, spares := g.spares + [d]);
      view := view.(spares := view.spares + 1);
    }
  }
}
