/** What the first-fit, coalescing allocator of memory.c does to its lists, on values,
    and what every run of it keeps. */
module HeapSpec {
  import Digits

  datatype Region = Region(base: int, size: int) {
    ghost function End(): int { base + size }
  }

  const MIN_MEMSIZE := 32

  ghost predicate Disjoint(a: Region, b: Region) { a.End() <= b.base || b.End() <= a.base }

  /** Non-empty and inside the pool [lo, hi). */
  ghost predicate InPool(r: Region, lo: int, hi: int) { r.size > 0 && lo <= r.base && r.End() <= hi }

  ghost predicate AllInPool(s: seq<Region>, lo: int, hi: int) { forall r :: r in s ==> InPool(r, lo, hi) }

  ghost predicate Clear(r: Region, useds: seq<Region>) { forall u :: u in useds ==> Disjoint(r, u) }

  ghost predicate AllClear(s: seq<Region>, useds: seq<Region>) { forall r :: r in s ==> Clear(r, useds) }

  /** Each hole ends before the next begins; strictly so when no two may touch. */
  ghost predicate Sorted(s: seq<Region>)
  {
    forall i :: 0 <= i < |s| - 1 ==> s[i].End() <= s[i + 1].base
  }

  ghost predicate SortedApart(s: seq<Region>)
  {
    forall i :: 0 <= i < |s| - 1 ==> s[i].End() < s[i + 1].base
  }

  ghost predicate PairwiseDisjoint(s: seq<Region>)
  {
    forall i, j :: 0 <= i < j < |s| ==> Disjoint(s[i], s[j])
  }

  ghost function Sum(s: seq<Region>): int
  {
    if s == [] then 0 else s[0].size + Sum(s[1..])
  }

  /** Free holes and used blocks tile [lo, hi): disjoint, inside, and adding up to the whole;
      and the holes are sorted with a gap between any two. */
  ghost predicate Tiled(frees: seq<Region>, useds: seq<Region>, lo: int, hi: int)
  {
    && AllInPool(frees, lo, hi) && AllInPool(useds, lo, hi)
    && SortedApart(frees) && PairwiseDisjoint(useds) && AllClear(frees, useds)
    && Sum(frees) + Sum(useds) == hi - lo
  }

  // ---- list surgery ----

  ghost function Without(s: seq<Region>, k: nat): seq<Region>
    requires k < |s|
  {
    s[..k] + s[k + 1..]
  }

  lemma {:induction false} SumConcat(s: seq<Region>, t: seq<Region>)
    ensures Sum(s + t) == Sum(s) + Sum(t)
  {
    if s == [] {
      assert s + t == t;
    } else {
      assert (s + t)[1..] == s[1..] + t;
      SumConcat(s[1..], t);
    }
  }

  lemma SumSplit(s: seq<Region>, k: nat)
    requires k < |s|
    ensures Sum(s) == Sum(s[..k]) + s[k].size + Sum(s[k + 1..])
  {
    assert s == s[..k] + s[k..] && s[k..][1..] == s[k + 1..];
    SumConcat(s[..k], s[k..]);
  }

  lemma SumWithout(s: seq<Region>, k: nat)
    requires k < |s|
    ensures Sum(Without(s, k)) == Sum(s) - s[k].size
  {
    SumSplit(s, k);
    SumConcat(s[..k], s[k + 1..]);
  }

  lemma SumUpdate(s: seq<Region>, k: nat, r: Region)
    requires k < |s|
    ensures Sum(s[k := r]) == Sum(s) - s[k].size + r.size
  {
    SumSplit(s, k);
    SumSplit(s[k := r], k);
    assert s[k := r][..k] == s[..k] && s[k := r][k + 1..] == s[k + 1..];
  }

  lemma SumInsert(s: seq<Region>, p: nat, r: Region)
    requires p <= |s|
    ensures Sum(s[..p] + [r] + s[p..]) == Sum(s) + r.size
  {
    SumConcat(s[..p] + [r], s[p..]);
    SumConcat(s[..p], [r]);
    SumConcat(s[..p], s[p..]);
    assert s == s[..p] + s[p..] && [r][1..] == [];
  }

  lemma DropUsed(useds: seq<Region>, k: nat)
    requires k < |useds| && PairwiseDisjoint(useds)
    ensures PairwiseDisjoint(Without(useds, k)) && Clear(useds[k], Without(useds, k))
    ensures forall u :: u in Without(useds, k) ==> u in useds
  {
    var rest := Without(useds, k);
    forall u | u in rest ensures u in useds && Disjoint(useds[k], u) {
      var i :| 0 <= i < |rest| && rest[i] == u;
      var j := if i < k then i else i + 1;
      assert useds[j] == u;
    }
  }

  lemma AddUsed(useds: seq<Region>, b: Region)
    requires PairwiseDisjoint(useds) && Clear(b, useds)
    ensures PairwiseDisjoint([b] + useds)
  {
    var t := [b] + useds;
    forall i, j | 0 <= i < j < |t| ensures Disjoint(t[i], t[j]) {
      assert t[j] == useds[j - 1];
      if i > 0 { assert t[i] == useds[i - 1]; }
    }
  }

  // ---- allocation ----

  /** First hole with at least size bytes, or the length of the list. */
  ghost function FirstFit(frees: seq<Region>, size: int): (i: nat)
    ensures i <= |frees|
    ensures i < |frees| ==> frees[i].size >= size
    ensures forall k :: 0 <= k < i ==> frees[k].size < size
  {
    if frees == [] then 0
    else if frees[0].size >= size then 0
    else 1 + FirstFit(frees[1..], size)
  }

  /** A remainder of at most MIN_MEMSIZE goes with the block. */
  ghost predicate Splits(hole: Region, size: int) { hole.size - size > MIN_MEMSIZE }

  /** What a request takes from a hole, and the free list afterwards: part of the hole if it is split, else all of
      it. */
  ghost function Part(hole: Region, size: int, split: bool): Region
  {
    if split then Region(hole.base, size) else hole
  }

  ghost function TakenFrom(frees: seq<Region>, i: nat, size: int, split: bool): seq<Region>
    requires i < |frees|
  {
    if split then frees[i := Region(frees[i].base + size, frees[i].size - size)] else Without(frees, i)
  }

  ghost function Block(hole: Region, size: int): Region { Part(hole, size, Splits(hole, size)) }

  /** The free list after carving size bytes from hole i. */
  ghost function Carved(frees: seq<Region>, i: nat, size: int): seq<Region>
    requires i < |frees|
  {
    TakenFrom(frees, i, size, Splits(frees[i], size))
  }

  lemma SortedTransitive(s: seq<Region>, i: nat, j: nat, lo: int, hi: int)
    requires SortedApart(s) && AllInPool(s, lo, hi) && i < j < |s|
    ensures s[i].End() < s[j].base
    decreases j
  {
    if i < j - 1 {
      SortedTransitive(s, i, j - 1, lo, hi);
      assert InPool(s[j - 1], lo, hi);
    }
  }

  lemma WithoutSorted(s: seq<Region>, k: nat, lo: int, hi: int)
    requires SortedApart(s) && AllInPool(s, lo, hi) && k < |s|
    ensures SortedApart(Without(s, k))
  {
    var t := Without(s, k);
    forall i | 0 <= i < |t| - 1 ensures t[i].End() < t[i + 1].base {
      SortedTransitive(s, if i < k then i else i + 1, if i + 1 < k then i + 1 else i + 2, lo, hi);
    }
  }

  lemma CarveKeepsTiling(frees: seq<Region>, useds: seq<Region>, lo: int, hi: int, i: nat, size: int)
    requires Tiled(frees, useds, lo, hi) && i < |frees| && 0 < size <= frees[i].size
    ensures Tiled(Carved(frees, i, size), [Block(frees[i], size)] + useds, lo, hi)
  {
    TakeKeepsTiling(frees, useds, lo, hi, i, size, Splits(frees[i], size));
  }

  lemma TakeKeepsTiling(frees: seq<Region>, useds: seq<Region>, lo: int, hi: int, i: nat, size: int, split: bool)
    requires Tiled(frees, useds, lo, hi) && i < |frees| && 0 < size <= frees[i].size && (split ==> size < frees[i].size)
    ensures Tiled(TakenFrom(frees, i, size, split), [Part(frees[i], size, split)] + useds, lo, hi)
  {
    var hole, b, left := frees[i], Part(frees[i], size, split), TakenFrom(frees, i, size, split);
    assert InPool(hole, lo, hi) && Clear(hole, useds);
    AddUsed(useds, b);
    assert ([b] + useds)[1..] == useds;
    if split {
      SumUpdate(frees, i, Region(hole.base + size, hole.size - size));
    } else {
      SumWithout(frees, i);
      WithoutSorted(frees, i, lo, hi);
    }
    forall r | r in left ensures InPool(r, lo, hi) && Clear(r, [b] + useds) {
      LeftAfterTake(frees, lo, hi, i, size, split, r);
      assert Clear(r, useds) by {
        if r !in frees { assert forall u :: u in useds ==> Disjoint(hole, u); }
      }
    }
  }

  /** What is left after the cut is an old hole or the rest of hole i, clear of the block. */
  lemma LeftAfterTake(frees: seq<Region>, lo: int, hi: int, i: nat, size: int, split: bool, r: Region)
    requires SortedApart(frees) && AllInPool(frees, lo, hi) && i < |frees| && 0 < size <= frees[i].size &&
      (split ==> size < frees[i].size)
    requires r in TakenFrom(frees, i, size, split)
    ensures r in frees || (split && r == Region(frees[i].base + size, frees[i].size - size))
    ensures Disjoint(r, Part(frees[i], size, split))
  {
    var left := TakenFrom(frees, i, size, split);
    var k :| 0 <= k < |left| && left[k] == r;
    var j := if split || k < i then k else k + 1;
    if j != i {
      assert r == frees[j];
      if j < i { SortedTransitive(frees, j, i, lo, hi); } else { SortedTransitive(frees, i, j, lo, hi); }
    }
  }

  /** No used block starts where a free hole does: the check before every allocation passes. */
  lemma HoleIsUnused(frees: seq<Region>, useds: seq<Region>, lo: int, hi: int, i: nat, j: nat)
    requires Tiled(frees, useds, lo, hi) && i < |frees| && j < |useds|
    ensures frees[i].base != useds[j].base
  {
    assert Clear(frees[i], useds) && Disjoint(frees[i], useds[j]);
    assert InPool(frees[i], lo, hi) && InPool(useds[j], lo, hi);
  }

  // ---- release ----

  /** Position of the first hole above base. */
  ghost function Above(frees: seq<Region>, base: int): (p: nat)
    ensures p <= |frees|
    ensures p < |frees| ==> frees[p].base > base
    ensures forall k :: 0 <= k < p ==> frees[k].base <= base
  {
    if frees == [] then 0
    else if frees[0].base > base then 0
    else 1 + Above(frees[1..], base)
  }

  /** The guard of the insertion loop: some hole lies above the block. */
  ghost predicate HoleAbove(frees: seq<Region>, base: int) { Above(frees, base) < |frees| }

  ghost function Inserted(frees: seq<Region>, p: nat, r: Region): seq<Region>
    requires p <= |frees|
  {
    frees[..p] + [r] + frees[p..]
  }

  /** Holes i and i+1 become one. */
  ghost function Joined(s: seq<Region>, i: nat): seq<Region>
    requires i + 1 < |s|
  {
    s[..i] + [Region(s[i].base, s[i].size + s[i + 1].size)] + s[i + 2..]
  }

  ghost predicate Touch(s: seq<Region>, i: nat)
    requires i + 1 < |s|
  {
    s[i].End() == s[i + 1].base
  }

  /** Hole p merged with the neighbours it touches. */
  ghost function Coalesced(s: seq<Region>, p: nat): seq<Region>
    requires p + 1 < |s|
  {
    var t := if Touch(s, p) then Joined(s, p) else s;
    if p > 0 && Touch(t, p - 1) then Joined(t, p - 1) else t
  }

  /** The free list with r put back before hole p and merged with the neighbours it touches. */
  ghost function Merged(frees: seq<Region>, p: nat, r: Region): seq<Region>
    requires p < |frees|
  {
    Coalesced(Inserted(frees, p, r), p)
  }

  /** Sorted, in the pool, clear of the used blocks, and of the given total size. */
  ghost predicate Holes(s: seq<Region>, useds: seq<Region>, lo: int, hi: int, total: int)
  {
    Sorted(s) && AllInPool(s, lo, hi) && AllClear(s, useds) && Sum(s) == total
  }

  lemma InsertHoles(frees: seq<Region>, useds: seq<Region>, lo: int, hi: int, total: int, p: nat, r: Region)
    requires Holes(frees, useds, lo, hi, total) && p < |frees| && InPool(r, lo, hi) && Clear(r, useds)
    requires r.End() <= frees[p].base && (p > 0 ==> frees[p - 1].End() <= r.base)
    ensures Holes(Inserted(frees, p, r), useds, lo, hi, total + r.size)
  {
    SumInsert(frees, p, r);
  }

  /** Joining removes gap i and keeps the others. */
  ghost function Gap(s: seq<Region>, j: nat): int
    requires j + 1 < |s|
  {
    s[j + 1].base - s[j].End()
  }

  lemma JoinedGap(s: seq<Region>, i: nat, j: nat)
    requires i + 1 < |s| && Touch(s, i) && j + 2 < |s|
    ensures Gap(Joined(s, i), j) == Gap(s, if j < i then j else j + 1)
  {
    var t := Joined(s, i);
    assert forall k :: 0 <= k < i ==> t[k] == s[k];
    assert forall k :: i < k < |t| ==> t[k] == s[k + 1];
  }

  lemma JoinedSorted(s: seq<Region>, i: nat)
    requires i + 1 < |s| && Touch(s, i) && Sorted(s)
    ensures Sorted(Joined(s, i))
  {
    forall j | 0 <= j < |s| - 2 ensures Gap(Joined(s, i), j) >= 0 {
      JoinedGap(s, i, j);
      assert Gap(s, if j < i then j else j + 1) >= 0;
    }
  }

  lemma {:induction false} JoinedSum(s: seq<Region>, i: nat)
    requires i + 1 < |s|
    ensures Sum(Joined(s, i)) == Sum(s)
  {
    if i == 0 {
      assert Joined(s, 0)[1..] == s[2..] == s[1..][1..];
    } else {
      assert Joined(s, i)[1..] == Joined(s[1..], i - 1);
      JoinedSum(s[1..], i - 1);
    }
  }

  lemma JoinHoles(s: seq<Region>, useds: seq<Region>, lo: int, hi: int, total: int, i: nat)
    requires Holes(s, useds, lo, hi, total) && AllInPool(useds, lo, hi) && i + 1 < |s| && Touch(s, i)
    ensures Holes(Joined(s, i), useds, lo, hi, total)
  {
    var all := Region(s[i].base, s[i].size + s[i + 1].size);
    JoinedSum(s, i);
    JoinedSorted(s, i);
    assert InPool(s[i], lo, hi) && InPool(s[i + 1], lo, hi) && Clear(s[i], useds) && Clear(s[i + 1], useds);
    assert Clear(all, useds) by {
      forall u | u in useds ensures Disjoint(all, u) {
        assert InPool(u, lo, hi) && Disjoint(s[i], u) && Disjoint(s[i + 1], u);
      }
    }
    forall x | x in Joined(s, i) ensures InPool(x, lo, hi) && Clear(x, useds) {
      assert x == all || x in s;
    }
  }

  /** All gaps but possibly gap q are open. */
  ghost predicate ApartBut(s: seq<Region>, q: int)
  {
    forall i :: 0 <= i < |s| - 1 && i != q ==> Gap(s, i) > 0
  }

  lemma JoinedApart(s: seq<Region>, q: nat, other: int)
    requires q + 1 < |s| && Touch(s, q) && (other == q || other == q - 1)
    requires forall i :: 0 <= i < |s| - 1 && i != q && i != other ==> Gap(s, i) > 0
    ensures ApartBut(Joined(s, q), if other == q then -1 else other)
  {
    var t := Joined(s, q);
    forall i | 0 <= i < |t| - 1 && i != (if other == q then -1 else other) ensures Gap(t, i) > 0 {
      JoinedGap(s, q, i);
    }
  }

  lemma InsertedApart(frees: seq<Region>, p: nat, r: Region)
    requires SortedApart(frees) && p < |frees|
    ensures forall i :: 0 <= i < |frees| && i != p && i != p - 1 ==> Gap(Inserted(frees, p, r), i) > 0
  {
    var s := Inserted(frees, p, r);
    forall i | 0 <= i < |frees| && i != p && i != p - 1 ensures Gap(s, i) > 0 {
      var k := if i < p then i else i - 1;
      assert s[i] == frees[k] && s[i + 1] == frees[k + 1];
    }
  }

  /** Insertion leaves at most the two new gaps closed; joining them leaves none. */
  lemma MergedApart(frees: seq<Region>, p: nat, r: Region)
    requires SortedApart(frees) && p < |frees|
    requires r.End() <= frees[p].base && (p > 0 ==> frees[p - 1].End() <= r.base)
    ensures SortedApart(Merged(frees, p, r))
  {
    var s := Inserted(frees, p, r);
    InsertedApart(frees, p, r);
    var t := if Touch(s, p) then Joined(s, p) else s;
    if Touch(s, p) { JoinedApart(s, p, p - 1); } else { assert Gap(s, p) > 0; }
    assert ApartBut(t, p - 1);
    if p > 0 {
      if Touch(t, p - 1) { JoinedApart(t, p - 1, p - 1); } else { assert Gap(t, p - 1) > 0; }
    }
    ApartButNone(Merged(frees, p, r));
  }

  lemma ApartButNone(s: seq<Region>)
    requires ApartBut(s, -1)
    ensures SortedApart(s)
  {
    forall i | 0 <= i < |s| - 1 ensures s[i].End() < s[i + 1].base { assert Gap(s, i) > 0; }
  }

  lemma ReleaseKeepsTiling(frees: seq<Region>, useds: seq<Region>, lo: int, hi: int, k: nat)
    requires Tiled(frees, useds, lo, hi) && k < |useds| && HoleAbove(frees, useds[k].base)
    ensures Tiled(Merged(frees, Above(frees, useds[k].base), useds[k]), Without(useds, k), lo, hi)
  {
    var r, p, rest := useds[k], Above(frees, useds[k].base), Without(useds, k);
    DropUsed(useds, k);
    SumWithout(useds, k);
    Neighbours(frees, useds, lo, hi, k);
    assert InPool(r, lo, hi);
    assert AllClear(frees, rest);
    InsertHoles(frees, rest, lo, hi, Sum(frees), p, r);
    MergeHoles(Inserted(frees, p, r), rest, lo, hi, Sum(frees) + r.size, p);
    MergedApart(frees, p, r);
  }

  lemma MergeHoles(s: seq<Region>, useds: seq<Region>, lo: int, hi: int, total: int, p: nat)
    requires Holes(s, useds, lo, hi, total) && AllInPool(useds, lo, hi) && p + 1 < |s|
    ensures Holes(Coalesced(s, p), useds, lo, hi, total)
  {
    if Touch(s, p) { JoinHoles(s, useds, lo, hi, total, p); }
    var t := if Touch(s, p) then Joined(s, p) else s;
    if p > 0 && Touch(t, p - 1) { JoinHoles(t, useds, lo, hi, total, p - 1); }
  }

  /** The released block lies between its neighbours: the overlap exit is never taken. */
  lemma Neighbours(frees: seq<Region>, useds: seq<Region>, lo: int, hi: int, k: nat)
    requires Tiled(frees, useds, lo, hi) && k < |useds| && HoleAbove(frees, useds[k].base)
    ensures var p := Above(frees, useds[k].base);
      useds[k].End() <= frees[p].base && (p > 0 ==> frees[p - 1].End() <= useds[k].base)
  {
    var p := Above(frees, useds[k].base);
    assert InPool(useds[k], lo, hi) && InPool(frees[p], lo, hi);
    assert Clear(frees[p], useds) && Disjoint(frees[p], useds[k]);
    if p > 0 {
      assert Clear(frees[p - 1], useds) && Disjoint(frees[p - 1], useds[k]) && InPool(frees[p - 1], lo, hi);
    }
  }

  // ---- what tiling means address by address ----

  ghost function Interval(lo: int, hi: int): (s: set<int>)
    ensures forall a :: a in s <==> lo <= a < hi
    ensures |s| == if lo <= hi then hi - lo else 0
    decreases hi - lo
  {
    if lo >= hi then {} else Interval(lo, hi - 1) + {hi - 1}
  }

  ghost function Addresses(s: seq<Region>): set<int>
  {
    if s == [] then {} else Addresses(s[1..]) + Interval(s[0].base, s[0].End())
  }

  lemma {:induction false} AddressMember(s: seq<Region>, a: int)
    ensures a in Addresses(s) <==> exists r :: r in s && r.base <= a < r.End()
  {
    if s != [] {
      AddressMember(s[1..], a);
      if r :| r in s && r.base <= a < r.End() {
        assert r == s[0] || r in s[1..];
      }
    }
  }

  lemma {:induction false} AddressCount(s: seq<Region>, lo: int, hi: int)
    requires AllInPool(s, lo, hi) && PairwiseDisjoint(s)
    ensures |Addresses(s)| == Sum(s) && Addresses(s) <= Interval(lo, hi)
  {
    if s != [] {
      assert PairwiseDisjoint(s[1..]) by {
        forall i, j | 0 <= i < j < |s| - 1 ensures Disjoint(s[1..][i], s[1..][j]) {
          assert Disjoint(s[i + 1], s[j + 1]);
        }
      }
      AddressCount(s[1..], lo, hi);
      var first := Interval(s[0].base, s[0].End());
      assert InPool(s[0], lo, hi);
      FirstIsFresh(s);
      assert |Addresses(s)| == |Addresses(s[1..])| + |first|;
    }
  }

  lemma FirstIsFresh(s: seq<Region>)
    requires s != [] && PairwiseDisjoint(s)
    ensures Addresses(s[1..]) !! Interval(s[0].base, s[0].End())
  {
    forall a | a in Addresses(s[1..]) ensures a !in Interval(s[0].base, s[0].End()) {
      AddressMember(s[1..], a);
      var r :| r in s[1..] && r.base <= a < r.End();
      var j :| 0 <= j < |s[1..]| && s[1..][j] == r;
      assert Disjoint(s[0], s[j + 1]);
    }
  }

  lemma AllDisjoint(frees: seq<Region>, useds: seq<Region>, lo: int, hi: int)
    requires Tiled(frees, useds, lo, hi)
    ensures PairwiseDisjoint(frees + useds)
  {
    var all := frees + useds;
    forall i, j | 0 <= i < j < |all| ensures Disjoint(all[i], all[j]) {
      if j < |frees| {
        SortedTransitive(frees, i, j, lo, hi);
      } else if i < |frees| {
        assert all[i] in frees && all[j] in useds;
        assert Clear(all[i], useds);
      } else {
        assert all[i] == useds[i - |frees|] && all[j] == useds[j - |frees|];
      }
    }
  }

  /** Every address of the pool lies in exactly one hole or block. */
  lemma TilingCovers(frees: seq<Region>, useds: seq<Region>, lo: int, hi: int, a: int)
    requires Tiled(frees, useds, lo, hi) && lo <= a < hi
    ensures exists r :: r in frees + useds && r.base <= a < r.End()
    ensures forall i, j :: 0 <= i < j < |frees + useds| ==> Disjoint((frees + useds)[i], (frees + useds)[j])
  {
    var all := frees + useds;
    AllDisjoint(frees, useds, lo, hi);
    AddressCount(all, lo, hi);
    SumConcat(frees, useds);
    var pool := Interval(lo, hi);
    if a !in Addresses(all) {
      assert Addresses(all) <= pool - {a};
      SubsetSize(Addresses(all), pool - {a});
      assert false;
    }
    AddressMember(all, a);
  }

  lemma {:induction false} SubsetSize(x: set<int>, y: set<int>)
    requires x <= y
    ensures |x| <= |y|
  {
    assert y == x + (y - x);
  }

  // ---- undoing an allocation ----

  /** Taking leaves a hole above the block exactly when it split the hole or took one that was not last. */
  lemma HoleAboveAfterTake(frees: seq<Region>, lo: int, hi: int, i: nat, size: int, split: bool)
    requires SortedApart(frees) && AllInPool(frees, lo, hi) && i < |frees| && 0 < size <= frees[i].size
    requires split ==> size < frees[i].size
    ensures HoleAbove(TakenFrom(frees, i, size, split), frees[i].base) <==> split || i + 1 < |frees|
    ensures HoleAbove(TakenFrom(frees, i, size, split), frees[i].base) ==>
      Above(TakenFrom(frees, i, size, split), frees[i].base) == i
  {
    var left, b := TakenFrom(frees, i, size, split), frees[i].base;
    assert InPool(frees[i], lo, hi);
    forall k | 0 <= k < i ensures left[k].base <= b {
      SortedTransitive(frees, k, i, lo, hi);
      assert InPool(frees[k], lo, hi);
    }
    if i < |left| {
      if !split { SortedTransitive(frees, i, i + 1, lo, hi); }
      assert left[i].base > b;
    }
  }

  /** Putting back what was just taken gives the same free list. */
  lemma TakeMergeRestores(frees: seq<Region>, lo: int, hi: int, i: nat, size: int, split: bool)
    requires SortedApart(frees) && AllInPool(frees, lo, hi) && i < |frees| && 0 < size <= frees[i].size
    requires (split ==> size < frees[i].size) && (split || i + 1 < |frees|)
    ensures Merged(TakenFrom(frees, i, size, split), i, Part(frees[i], size, split)) == frees
  {
    var left, b := TakenFrom(frees, i, size, split), Part(frees[i], size, split);
    var s := Inserted(left, i, b);
    if split {
      assert Touch(s, i);
      assert Joined(s, i) == frees;
      assert i > 0 ==> !Touch(frees, i - 1);
    } else {
      assert s == frees;
      assert !Touch(s, i) && (i > 0 ==> !Touch(s, i - 1));
    }
  }

  // ---- runs ----

  /** The three descriptor lists; spare descriptors only count. */
  datatype Heap = Heap(frees: seq<Region>, useds: seq<Region>, spares: int) {
    ghost function Descriptors(): int { |frees| + |useds| + spares }
  }

  /** Round up to a multiple of the power of two block. */
  function AlignUp(x: int, block: int): int
    requires block > 0
  {
    if x % block == 0 then x else x - x % block + block
  }

  /** Bytes an aligned request takes from a hole: the gap before the aligned start, then the rounded size. */
  ghost function AlignedNeed(hole: Region, size: int, block: int): int
    requires block > 0
  {
    AlignUp(hole.base, block) + AlignUp(size, block) - hole.base
  }

  ghost function FirstAlignedFit(frees: seq<Region>, size: int, block: int): (i: nat)
    requires block > 0
    ensures i <= |frees|
    ensures i < |frees| ==> frees[i].size >= AlignedNeed(frees[i], size, block)
    ensures forall k :: 0 <= k < i ==> frees[k].size < AlignedNeed(frees[k], size, block)
  {
    if frees == [] then 0
    else if frees[0].size >= AlignedNeed(frees[0], size, block) then 0
    else 1 + FirstAlignedFit(frees[1..], size, block)
  }

  datatype Op = Kalloc(size: int) | Aalloc(size: int, block: int) | Release(k: nat)

  ghost function Carve(h: Heap, i: nat, size: int): Heap
    requires i < |h.frees|
  {
    Heap(Carved(h.frees, i, size), [Block(h.frees[i], size)] + h.useds,
         if Splits(h.frees[i], size) then h.spares - 1 else h.spares)
  }

  ghost function Freed(h: Heap, k: nat): Heap
    requires k < |h.useds| && HoleAbove(h.frees, h.useds[k].base)
  {
    var frees := Merged(h.frees, Above(h.frees, h.useds[k].base), h.useds[k]);
    Heap(frees, Without(h.useds, k), h.spares + |h.frees| + 1 - |frees|)
  }

  /** What each call demands: a positive size, a descriptor when it splits, a hole above what it frees. */
  ghost predicate Demands(h: Heap, op: Op)
  {
    match op
    case Kalloc(size) =>
      size > 0 && (var i := FirstFit(h.frees, size); i < |h.frees| && Splits(h.frees[i], size) ==> h.spares > 0)
    case Aalloc(size, block) =>
      size > 0 && block > 0 && (var i := FirstAlignedFit(h.frees, size, block);
        i < |h.frees| && Splits(h.frees[i], AlignedNeed(h.frees[i], size, block)) ==> h.spares > 0)
    case Release(k) => k < |h.useds| && HoleAbove(h.frees, h.useds[k].base)
  }

  ghost function Apply(h: Heap, op: Op): Heap
    requires Demands(h, op)
  {
    match op
    case Kalloc(size) =>
      var i := FirstFit(h.frees, size);
      if i == |h.frees| then h else Carve(h, i, size)
    case Aalloc(size, block) =>
      var i := FirstAlignedFit(h.frees, size, block);
      if i == |h.frees| then h else Carve(h, i, AlignedNeed(h.frees[i], size, block))
    case Release(k) => Freed(h, k)
  }

  ghost predicate HeapInv(h: Heap, lo: int, hi: int, descriptors: int)
  {
    Tiled(h.frees, h.useds, lo, hi) && h.spares >= 0 && h.Descriptors() == descriptors
  }

  lemma AlignUpBounds(x: int, block: int)
    requires block > 0
    ensures x <= AlignUp(x, block) < x + block && AlignUp(x, block) % block == 0
  {
    if x % block != 0 {
      var q := x / block;
      assert x == block * q + x % block;
      assert AlignUp(x, block) == block * (q + 1);
      Digits.DivModUnique(block * (q + 1), q + 1, 0, block);
    }
  }

  lemma StepKeepsInv(h: Heap, op: Op, lo: int, hi: int, descriptors: int)
    requires HeapInv(h, lo, hi, descriptors) && Demands(h, op)
    ensures HeapInv(Apply(h, op), lo, hi, descriptors)
  {
    match op
    case Kalloc(size) =>
      var i := FirstFit(h.frees, size);
      if i < |h.frees| { CarveKeepsTiling(h.frees, h.useds, lo, hi, i, size); }
    case Aalloc(size, block) =>
      var i := FirstAlignedFit(h.frees, size, block);
      if i < |h.frees| {
        AlignUpBounds(h.frees[i].base, block);
        AlignUpBounds(size, block);
        CarveKeepsTiling(h.frees, h.useds, lo, hi, i, AlignedNeed(h.frees[i], size, block));
      }
    case Release(k) =>
      ReleaseKeepsTiling(h.frees, h.useds, lo, hi, k);
  }

  /** All calls of a run meet their demands. */
  ghost predicate Legal(h: Heap, run: seq<Op>)
    decreases |run|
  {
    run == [] || (Demands(h, run[0]) && Legal(Apply(h, run[0]), run[1..]))
  }

  ghost function Run(h: Heap, run: seq<Op>): Heap
    requires Legal(h, run)
    decreases |run|
  {
    if run == [] then h else Run(Apply(h, run[0]), run[1..])
  }

  /** The heap as init_mem_core leaves it: one hole, every other descriptor spare. */
  ghost function Initial(lo: int, size: int, descriptors: int): Heap
  {
    Heap([Region(lo, size)], [], descriptors - 1)
  }

  lemma {:induction false} RunKeepsInv(h: Heap, run: seq<Op>, lo: int, hi: int, descriptors: int)
    requires HeapInv(h, lo, hi, descriptors) && Legal(h, run)
    ensures HeapInv(Run(h, run), lo, hi, descriptors)
    decreases |run|
  {
    if run != [] {
      StepKeepsInv(h, run[0], lo, hi, descriptors);
      RunKeepsInv(Apply(h, run[0]), run[1..], lo, hi, descriptors);
    }
  }

  /** In every legal run from boot the pool stays tiled and no descriptor is lost or duplicated. */
  lemma EveryRunTiles(run: seq<Op>, lo: int, size: int, descriptors: int)
    requires size > 0 && descriptors >= 1 && Legal(Initial(lo, size, descriptors), run)
    ensures HeapInv(Run(Initial(lo, size, descriptors), run), lo, lo + size, descriptors)
  {
    assert Sum([Region(lo, size)]) == size by { assert [Region(lo, size)][1..] == []; }
    RunKeepsInv(Initial(lo, size, descriptors), run, lo, lo + size, descriptors);
  }

  // ---- releasing a block with no hole above it ----

  /** The block leaves the used list but is linked nowhere, and the merge then looks at the
      block's stale neighbours, which are its neighbours in the used list. */
  ghost function Lost(h: Heap, k: nat): Heap
    requires k < |h.useds|
  {
    var r, rest := h.useds[k], Without(h.useds, k);
    var below := k > 0 && rest[k - 1].End() == r.base;
    var above := k < |rest| && r.End() == rest[k].base;
    if below && above then
      Heap(h.frees, Without(rest[k - 1 := Region(rest[k - 1].base, rest[k - 1].size + rest[k].size)], k), h.spares + 1)
    else if above && !below then Heap(h.frees, Without(rest, k), h.spares + 1)
    else Heap(h.frees, rest, h.spares)
  }

  ghost function FreeStep(h: Heap, k: nat): Heap
    requires k < |h.useds|
  {
    if HoleAbove(h.frees, h.useds[k].base) then Freed(h, k) else Lost(h, k)
  }

  /** Releasing keeps the pool tiled exactly when some hole lies above the block. */
  lemma FreeKeepsTilingIff(h: Heap, k: nat, lo: int, hi: int)
    requires Tiled(h.frees, h.useds, lo, hi) && k < |h.useds|
    ensures Tiled(FreeStep(h, k).frees, FreeStep(h, k).useds, lo, hi) <==> HoleAbove(h.frees, h.useds[k].base)
  {
    if HoleAbove(h.frees, h.useds[k].base) {
      ReleaseKeepsTiling(h.frees, h.useds, lo, hi, k);
    } else {
      var r, rest := h.useds[k], Without(h.useds, k);
      assert InPool(r, lo, hi);
      SumWithout(h.useds, k);
      if k < |rest| {
        assert rest[k] == h.useds[k + 1] && InPool(h.useds[k + 1], lo, hi);
        SumWithout(rest, k);
        if k > 0 {
          var grown := rest[k - 1 := Region(rest[k - 1].base, rest[k - 1].size + rest[k].size)];
          SumUpdate(rest, k - 1, Region(rest[k - 1].base, rest[k - 1].size + rest[k].size));
          SumWithout(grown, k);
        }
      }
    }
  }

  lemma CarveFreeRestores(h: Heap, i: nat, size: int, lo: int, hi: int)
    requires Tiled(h.frees, h.useds, lo, hi) && i < |h.frees| && 0 < size <= h.frees[i].size
    ensures HoleAbove(Carve(h, i, size).frees, h.frees[i].base) <==> Splits(h.frees[i], size) || i + 1 < |h.frees|
    ensures FreeStep(Carve(h, i, size), 0) == h <==> Splits(h.frees[i], size) || i + 1 < |h.frees|
  {
    var g, split := Carve(h, i, size), Splits(h.frees[i], size);
    HoleAboveAfterTake(h.frees, lo, hi, i, size, split);
    assert Without(g.useds, 0) == h.useds;
    if split || i + 1 < |h.frees| {
      TakeMergeRestores(h.frees, lo, hi, i, size, split);
    } else {
      assert |FreeStep(g, 0).frees| < |h.frees|;
    }
  }

  /** Freeing what a call has just allocated restores the heap exactly if the call left a hole above its block. */
  lemma AllocFreeRestores(h: Heap, op: Op, lo: int, hi: int)
    requires Tiled(h.frees, h.useds, lo, hi) && Demands(h, op) && !op.Release? && Apply(h, op) != h
    ensures Apply(h, op).useds != [] && Apply(h, op).useds[1..] == h.useds
    ensures FreeStep(Apply(h, op), 0) == h <==> HoleAbove(Apply(h, op).frees, Apply(h, op).useds[0].base)
  {
    match op
    case Kalloc(size) =>
      CarveFreeRestores(h, FirstFit(h.frees, size), size, lo, hi);
    case Aalloc(size, block) =>
      var i := FirstAlignedFit(h.frees, size, block);
      AlignUpBounds(h.frees[i].base, block);
      AlignUpBounds(size, block);
      CarveFreeRestores(h, i, AlignedNeed(h.frees[i], size, block), lo, hi);
  }

  /** A pool handed out whole cannot be given back: a concrete run that loses it. */
  lemma WholePoolIsLost()
    ensures var h := Apply(Initial(4096, 4096, 8), Kalloc(4096));
      h.useds == [Region(4096, 4096)] && FreeStep(h, 0).frees == [] && FreeStep(h, 0).useds == []
  {
    var h0 := Initial(4096, 4096, 8);
    assert FirstFit(h0.frees, 4096) == 0;
  }
}
