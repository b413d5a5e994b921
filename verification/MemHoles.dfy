/** The circular doubly linked lists of memory.c: descriptors relinked in place by the
    MHOLE_REMOVE and MHOLE_INSERT macros of memory.h. */
module MemHoles {
  import opened HeapSpec

  class MemHole {
    var base: int
    var alignBase: int
    var size: int
    var prev: MemHole
    var next: MemHole

    constructor ()
      ensures base == 0 && size == 0 && prev == this && next == this
    {
      base, alignBase, size := 0, 0, 0;
      prev, next := this, this;
    }
  }

  ghost function At(h: MemHole, s: seq<MemHole>, i: int): (x: MemHole)
    requires -1 <= i <= |s|
    ensures x == h || x in s
  {
    if 0 <= i < |s| then s[i] else h
  }

  ghost predicate NoDuplicates(s: seq<MemHole>)
  {
    forall i, j :: 0 <= i < j < |s| ==> s[i] != s[j]
  }

  /** Node i and node i+1 point at each other; the head counts as node -1 and as node |s|. */
  ghost predicate Linked(h: MemHole, s: seq<MemHole>, i: int)
    requires -1 <= i < |s|
    reads h`next, h`prev, s`next, s`prev
  {
    At(h, s, i).next == At(h, s, i + 1) && At(h, s, i + 1).prev == At(h, s, i)
  }

  /** h is the head of the ring h, s[0], s[1], ... back to h. */
  ghost predicate Ring(h: MemHole, s: seq<MemHole>)
    reads h`next, h`prev, s`next, s`prev
  {
    && h !in s && NoDuplicates(s)
    && forall i :: -1 <= i < |s| ==> Linked(h, s, i)
  }

  ghost function Cut(s: seq<MemHole>, k: nat): seq<MemHole>
    requires k < |s|
  {
    s[..k] + s[k + 1..]
  }

  ghost function Put(s: seq<MemHole>, k: nat, p: MemHole): seq<MemHole>
    requires k <= |s|
  {
    s[..k] + [p] + s[k..]
  }

  lemma CutFacts(s: seq<MemHole>, k: nat)
    requires k < |s| && NoDuplicates(s)
    ensures NoDuplicates(Cut(s, k)) && s[k] !in Cut(s, k)
    ensures forall x :: x in Cut(s, k) ==> x in s
    ensures forall i :: 0 <= i < k ==> Cut(s, k)[i] == s[i]
    ensures forall i :: k <= i < |s| - 1 ==> Cut(s, k)[i] == s[i + 1]
  {}

  lemma PutFacts(s: seq<MemHole>, k: nat, p: MemHole)
    requires k <= |s| && NoDuplicates(s) && p !in s
    ensures NoDuplicates(Put(s, k, p))
    ensures forall x :: x in Put(s, k, p) ==> x == p || x in s
    ensures Put(s, k, p)[k] == p
    ensures forall i :: 0 <= i < k ==> Put(s, k, p)[i] == s[i]
    ensures forall i :: k < i <= |s| ==> Put(s, k, p)[i] == s[i - 1]
  {}

  /** MHOLE_REMOVE. The removed descriptor keeps its stale links. */
  method Unlink(p: MemHole, ghost h: MemHole, ghost s: seq<MemHole>, ghost k: nat)
    requires Ring(h, s) && k < |s| && s[k] == p
    modifies At(h, s, k - 1)`next, At(h, s, k + 1)`prev
    ensures Ring(h, Cut(s, k))
    ensures p.prev == old(p.prev) == At(h, s, k - 1) && p.next == old(p.next) == At(h, s, k + 1)
  {
    assert Linked(h, s, k - 1) && Linked(h, s, k);
    p.prev.next := p.next;
    p.next.prev := p.prev;
    ghost var t := Cut(s, k);
    CutFacts(s, k);
    forall i | -1 <= i < |t| ensures Linked(h, t, i) {
      assert old(Linked(h, s, i));
      if i + 1 < |s| { assert old(Linked(h, s, i + 1)); }
    }
  }

  /** MHOLE_INSERT_HEAD. */
  method LinkHead(p: MemHole, h: MemHole, ghost s: seq<MemHole>)
    requires Ring(h, s) && p != h && p !in s
    modifies At(h, s, 0)`prev, h`next, p`prev, p`next
    ensures Ring(h, [p] + s)
  {
    assert Linked(h, s, -1);
    h.next.prev := p;
    p.next := h.next;
    h.next := p;
    p.prev := h;
    ghost var t := [p] + s;
    assert t == Put(s, 0, p);
    PutFacts(s, 0, p);
    forall i | -1 <= i < |t| ensures Linked(h, t, i) {
      if i >= 0 { assert old(Linked(h, s, i - 1)); }
    }
  }

  /** MHOLE_INSERT_TAIL. */
  method LinkTail(p: MemHole, h: MemHole, ghost s: seq<MemHole>)
    requires Ring(h, s) && p != h && p !in s
    modifies At(h, s, |s| - 1)`next, h`prev, p`prev, p`next
    ensures Ring(h, s + [p])
  {
    assert Linked(h, s, |s| - 1);
    h.prev.next := p;
    p.prev := h.prev;
    h.prev := p;
    p.next := h;
    ghost var t := s + [p];
    assert t == Put(s, |s|, p);
    PutFacts(s, |s|, p);
    forall i | -1 <= i < |t| ensures Linked(h, t, i) {
      if i < |s| { assert old(Linked(h, s, i)); }
    }
  }

  /** MHOLE_INSERT_BEFORE. */
  method LinkBefore(p: MemHole, ep: MemHole, ghost h: MemHole, ghost s: seq<MemHole>, ghost k: nat)
    requires Ring(h, s) && p != h && p !in s && k < |s| && s[k] == ep
    modifies At(h, s, k - 1)`next, ep`prev, p`prev, p`next
    ensures Ring(h, Put(s, k, p))
    ensures p.prev == At(h, s, k - 1) && p.next == ep
  {
    assert Linked(h, s, k - 1);
    ep.prev.next := p;
    p.prev := ep.prev;
    ep.prev := p;
    p.next := ep;
    ghost var t := Put(s, k, p);
    PutFacts(s, k, p);
    forall i | -1 <= i < |t| ensures Linked(h, t, i) {
      if i < k { assert old(Linked(h, s, i)); }
      if i > k { assert old(Linked(h, s, i - 1)); }
    }
  }

  // ---- the three lists ----

  /** All descriptors and list heads, the heads, and which descriptors are on which list. */
  datatype Lists = Lists(all: set<MemHole>, holeList: MemHole, freeList: MemHole, useList: MemHole,
                         spares: seq<MemHole>, frees: seq<MemHole>, useds: seq<MemHole>)

  ghost predicate Apart(h1: MemHole, s1: seq<MemHole>, h2: MemHole, s2: seq<MemHole>)
  {
    h1 != h2 && h1 !in s2 && h2 !in s1 && forall x :: x in s1 ==> x !in s2
  }

  ghost predicate Inside(h: MemHole, s: seq<MemHole>, all: set<MemHole>)
  {
    h in all && forall x :: x in s ==> x in all
  }

  ghost predicate Separate(g: Lists)
  {
    && Inside(g.holeList, g.spares, g.all) && Inside(g.freeList, g.frees, g.all) && Inside(g.useList, g.useds, g.all)
    && Apart(g.holeList, g.spares, g.freeList, g.frees)
    && Apart(g.holeList, g.spares, g.useList, g.useds)
    && Apart(g.freeList, g.frees, g.useList, g.useds)
  }

  ghost predicate Rings(g: Lists)
    reads g.all`next, g.all`prev
  {
    Separate(g) && Ring(g.holeList, g.spares) && Ring(g.freeList, g.frees) && Ring(g.useList, g.useds)
  }

  /** p is a descriptor on no list. */
  ghost predicate Loose(p: MemHole, g: Lists)
  {
    && p in g.all && p != g.holeList && p != g.freeList && p != g.useList
    && p !in g.spares && p !in g.frees && p !in g.useds
  }

  method DetachFree(p: MemHole, ghost g: Lists, ghost k: nat) returns (ghost g': Lists)
    requires Rings(g) && k < |g.frees| && g.frees[k] == p
    modifies g.all`next, g.all`prev
    ensures g' == g.(frees := Cut(g.frees, k)) && Rings(g') && Loose(p, g')
  {
    Unlink(p, g.freeList, g.frees, k);
    CutFacts(g.frees, k);
    g' := g.(frees := Cut(g.frees, k));
  }

  method DetachUsed(p: MemHole, ghost g: Lists, ghost k: nat) returns (ghost g': Lists)
    requires Rings(g) && k < |g.useds| && g.useds[k] == p
    modifies g.all`next, g.all`prev
    ensures g' == g.(useds := Cut(g.useds, k)) && Rings(g') && Loose(p, g')
    ensures p.prev == At(g.useList, g.useds, k - 1) && p.next == At(g.useList, g.useds, k + 1)
  {
    Unlink(p, g.useList, g.useds, k);
    CutFacts(g.useds, k);
    g' := g.(useds := Cut(g.useds, k));
  }

  /** new_mhole. */
  method DetachSpare(holeList: MemHole, ghost g: Lists) returns (d: MemHole, ghost g': Lists)
    requires Rings(g) && g.spares != [] && holeList == g.holeList
    modifies g.all`next, g.all`prev
    ensures d == g.spares[0] && g' == g.(spares := Cut(g.spares, 0)) && Rings(g') && Loose(d, g')
  {
    assert Linked(holeList, g.spares, -1);
    d := holeList.next;
    Unlink(d, holeList, g.spares, 0);
    CutFacts(g.spares, 0);
    g' := g.(spares := Cut(g.spares, 0));
  }

  method AttachUsed(p: MemHole, useList: MemHole, ghost g: Lists) returns (ghost g': Lists)
    requires Rings(g) && Loose(p, g) && useList == g.useList
    modifies g.all`next, g.all`prev
    ensures g' == g.(useds := [p] + g.useds) && Rings(g')
  {
    LinkHead(p, useList, g.useds);
    g' := g.(useds := [p] + g.useds);
  }

  method AttachSpare(p: MemHole, holeList: MemHole, ghost g: Lists) returns (ghost g': Lists)
    requires Rings(g) && Loose(p, g) && holeList == g.holeList
    modifies g.all`next, g.all`prev
    ensures g' == g.(spares := [p] + g.spares) && Rings(g')
  {
    LinkHead(p, holeList, g.spares);
    g' := g.(spares := [p] + g.spares);
  }

  method AttachFreeBefore(p: MemHole, ep: MemHole, ghost g: Lists, ghost k: nat) returns (ghost g': Lists)
    requires Rings(g) && Loose(p, g) && k < |g.frees| && g.frees[k] == ep
    modifies g.all`next, g.all`prev
    ensures g' == g.(frees := Put(g.frees, k, p)) && Rings(g')
    ensures p.prev == At(g.freeList, g.frees, k - 1) && p.next == ep
  {
    assert ep in g.frees;
    LinkBefore(p, ep, g.freeList, g.frees, k);
    PutFacts(g.frees, k, p);
    g' := g.(frees := Put(g.frees, k, p));
  }
}
