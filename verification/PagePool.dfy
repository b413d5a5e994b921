/** The process pool of memory.c: palloc and pfree over lists of free and used runs of frames, the
    descriptors they take and give back, and the memory behind them. */
module PagePool {
  import opened PageRuns
  import opened HeapSpec

  const ENTRIES := 1024            // words in a table, entries in a directory

  /** A frame of memory, as the words of a page table. */
  type Page = seq<Word>

  ghost predicate Framed(mem: seq<Page>) { forall f :: 0 <= f < |mem| ==> |mem[f]| == ENTRIES }

  /** Free and used runs, spare descriptors, and descriptors that merges have put on the kernel heap's list. */
  datatype Pool = Pool(frees: seq<Region>, useds: seq<Region>, spares: int, leaked: int)

  /** runs says what is on the used list: first frame to length. */
  ghost predicate Mirrors(runs: map<nat, nat>, useds: seq<Region>)
  {
    && (forall u {:trigger u in useds} :: u in useds ==>
         u.base >= 0 && u.size >= 0 && u.base in runs &&
         runs[u.base] == u.size)
    && (forall b :: b in runs ==> Region(b, runs[b]) in useds)
  }

  /** The lists tile the pool of frames lo up to hi. */
  ghost predicate Whole(pool: Pool, runs: map<nat, nat>, lo: nat, hi: nat)
  {
    Tiled(pool.frees, pool.useds, lo, hi) && Mirrors(runs, pool.useds) && PoolGood(runs, lo, hi) && pool.spares >= 0
  }

  lemma MirrorsGood(runs: map<nat, nat>, useds: seq<Region>, lo: nat, hi: nat)
    requires Mirrors(runs, useds) && AllInPool(useds, lo, hi) && PairwiseDisjoint(useds)
    ensures PoolGood(runs, lo, hi)
  {
    forall b | b in runs
      ensures lo <= b && 0 < runs[b] && b + runs[b] <= hi
    {
      assert InPool(Region(b, runs[b]), lo, hi);
    }
    forall a, b | a in runs && b in runs && a != b ensures a + runs[a] <= b || b + runs[b] <= a {
      var i :| 0 <= i < |useds| && useds[i] == Region(a, runs[a]);
      var j :| 0 <= j < |useds| && useds[j] == Region(b, runs[b]);
      assert if i < j then Disjoint(useds[i], useds[j]) else Disjoint(useds[j], useds[i]);
    }
  }

  /** No allocated run meets the m frames from a on. */
  ghost predicate FreeRange(runs: map<nat, nat>, a: nat, m: nat)
  {
    forall r :: r in runs ==> r + runs[r] <= a || a + m <= r
  }

  lemma RangeIsClear(runs: map<nat, nat>, useds: seq<Region>, a: nat, m: nat)
    requires Mirrors(runs, useds)
    ensures FreeRange(runs, a, m) <==> Clear(Region(a, m), useds)
  {
    if FreeRange(runs, a, m) {
      forall u | u in useds ensures Disjoint(Region(a, m), u) { assert u.base in runs; }
    }
    if Clear(Region(a, m), useds) {
      forall r | r in runs ensures r + runs[r] <= a || a + m <= r { assert Disjoint(Region(a, m), Region(r, runs[r])); }
    }
  }

  /** Frames that are free and consecutive lie in one hole. */
  lemma RangeInHole(frees: seq<Region>, useds: seq<Region>, lo: int, hi: int, a: int, m: int) returns (k: nat)
    requires Tiled(frees, useds, lo, hi) && m > 0 && lo <= a && a + m <= hi && Clear(Region(a, m), useds)
    ensures k < |frees| && frees[k].base <= a && a + m <= frees[k].End()
  {
    k := HoleOf(frees, useds, lo, hi, a, a, m);
    if frees[k].End() < a + m {
      var j := HoleOf(frees, useds, lo, hi, frees[k].End(), a, m);
      if j < k { SortedTransitive(frees, j, k, lo, hi); } else if k < j { SortedTransitive(frees, k, j, lo, hi); }
      assert false;
    }
  }

  /** A frame of a free range lies in some hole. */
  lemma HoleOf(frees: seq<Region>, useds: seq<Region>, lo: int, hi: int, f: int, a: int, m: int) returns (k: nat)
    requires Tiled(frees, useds, lo, hi) && lo <= a <= f < a + m <= hi && Clear(Region(a, m), useds)
    ensures k < |frees| && frees[k].base <= f < frees[k].End()
  {
    TilingCovers(frees, useds, lo, hi, f);
    var r :| r in frees + useds && r.base <= f < r.End();
    assert r in frees || Disjoint(Region(a, m), r);
    k :| 0 <= k < |frees| && frees[k] == r;
  }

  // ---- palloc ----

  /** A request for nothing still takes one frame. */
  function Frames(n: nat): nat { if n == 0 then 1 else n }

  /** The pool after taking m frames from hole i; a hole that is larger is split, and that takes a descriptor. */
  ghost function PoolTaken(pool: Pool, i: nat, m: int): Pool
    requires i < |pool.frees|
  {
    var split := pool.frees[i].size > m;
    Pool(TakenFrom(pool.frees, i, m, split), [Part(pool.frees[i], m, split)] + pool.useds,
    if split then pool.spares - 1 else pool.spares, pool.leaked)
  }

  /** There is a descriptor for the split, if there is to be one. */
  ghost predicate CanTake(pool: Pool, m: int)
  {
    var i := FirstFit(pool.frees, m);
    i < |pool.frees| && pool.frees[i].size > m ==> pool.spares > 0
  }

  /** What a request for m frames does: nothing, or the first hole that is large enough gives them from its bottom. */
  ghost predicate Requested(pool: Pool, m: int, b: int, pool': Pool)
  {
    var i := FirstFit(pool.frees, m);
    if i == |pool.frees| then b == 0 && pool' == pool
    else b == pool.frees[i].base != 0 && pool' == PoolTaken(pool, i, m)
  }

  lemma TakeKeepsWhole(pool: Pool, runs: map<nat, nat>, lo: nat, hi: nat, i: nat, m: nat)
    requires Whole(pool, runs, lo, hi) && i < |pool.frees| && 0 < m <= pool.frees[i].size &&
      (pool.frees[i].size > m ==> pool.spares > 0)
    ensures var b := pool.frees[i].base;
      lo <= b && b + m <= hi && Whole(PoolTaken(pool, i, m), runs[b := m], lo, hi) && FreeRange(runs, b, m)
  {
    var hole := pool.frees[i];
    var b, split := hole.base, hole.size > m;
    assert InPool(hole, lo, hi) && Clear(hole, pool.useds);
    TakeKeepsTiling(pool.frees, pool.useds, lo, hi, i, m, split);
    assert Clear(Region(b, m), pool.useds) by {
      forall u | u in pool.useds ensures Disjoint(Region(b, m), u) { assert Disjoint(hole, u) && InPool(u, lo, hi); }
    }
    RangeIsClear(runs, pool.useds, b, m);
    MirrorsAdd(runs, pool.useds, Region(b, m));
    MirrorsGood(runs[b := m], [Region(b, m)] + pool.useds, lo, hi);
  }

  lemma MirrorsAdd(runs: map<nat, nat>, useds: seq<Region>, u: Region)
    requires Mirrors(runs, useds) && u.base >= 0 && u.size > 0 && Clear(u, useds) && forall v :: v in useds ==>
      v.size > 0
    ensures Mirrors(runs[u.base as nat := u.size as nat], [u] + useds)
  {
    var runs', useds' := runs[u.base as nat := u.size as nat], [u] + useds;
    forall v | v in useds' ensures v.base >= 0 && v.size >= 0 && v.base in runs' && runs'[v.base] == v.size {
      if v != u { assert v in useds && Disjoint(u, v); }
    }
    forall b | b in runs' ensures Region(b, runs'[b]) in useds' {
      if b != u.base { assert Region(b, runs[b]) in useds; }
    }
  }

  /** When first fit passes a hole over, nothing starting below the chosen one would have done. */
  lemma NoneBelow(pool: Pool, runs: map<nat, nat>, lo: nat, hi: nat, i: nat, m: nat, a: nat)
    requires Whole(pool, runs, lo, hi) && i <= |pool.frees| && m > 0 && lo <= a && a + m <= hi &&
      (i < |pool.frees| ==> a < pool.frees[i].base)
    requires forall k :: 0 <= k < i ==> pool.frees[k].size < m
    ensures !FreeRange(runs, a, m)
  {
    if i < |pool.frees| { assert InPool(pool.frees[i], lo, hi); }
    if FreeRange(runs, a, m) {
      RangeIsClear(runs, pool.useds, a, m);
      var k := RangeInHole(pool.frees, pool.useds, lo, hi, a, m);
      if i < k { SortedTransitive(pool.frees, i, k, lo, hi); }
      assert false;
    }
  }

  // ---- pfree ----

  ghost predicate NonNegative(s: seq<Region>) { forall r :: r in s ==> r.size >= 0 }

  ghost function Total(pool: Pool): int { Sum(pool.frees) + Sum(pool.useds) }

  /** The pool after pfree of used block k, by the three branches of the code: put back below a hole and merged,
      refused because it would overlap that hole, or lost because there is no hole above it. */
  ghost function PoolFreed(pool: Pool, k: nat): Pool
    requires k < |pool.useds|
  {
    var r := pool.useds[k];
    var p := Above(pool.frees, r.base);
    if p == |pool.frees| then
      var left := Lost(Heap(pool.frees, pool.useds, 0), k);
      Pool(left.frees, left.useds, pool.spares, pool.leaked + left.spares)
    else if r.End() > pool.frees[p].base then Pool(pool.frees, Without(pool.useds, k), pool.spares, pool.leaked)
    else
      var frees := Merged(pool.frees, p, r);
      Pool(frees, Without(pool.useds, k), pool.spares, pool.leaked + |pool.frees| + 1 - |frees|)
  }

  lemma CoalescedTotal(s: seq<Region>, p: nat)
    requires p + 1 < |s| && NonNegative(s)
    ensures Sum(Coalesced(s, p)) == Sum(s) && NonNegative(Coalesced(s, p))
  {
    var t := if Touch(s, p) then Joined(s, p) else s;
    if Touch(s, p) {
      JoinedSum(s, p);
      JoinedNonNegative(s, p);
    }
    if p > 0 && Touch(t, p - 1) {
      JoinedSum(t, p - 1);
      JoinedNonNegative(t, p - 1);
    }
  }

  lemma JoinedNonNegative(s: seq<Region>, i: nat)
    requires i + 1 < |s| && NonNegative(s)
    ensures NonNegative(Joined(s, i))
  {
    assert s[i] in s && s[i + 1] in s;
    forall r | r in Joined(s, i) ensures r.size >= 0 {
      assert r == Region(s[i].base, s[i].size + s[i + 1].size) || r in s;
    }
  }

  lemma WithoutNonNegative(s: seq<Region>, k: nat)
    requires k < |s| && NonNegative(s)
    ensures NonNegative(Without(s, k)) && s[k].size >= 0 && Sum(Without(s, k)) == Sum(s) - s[k].size
  {
    SumWithout(s, k);
    assert s[k] in s;
    forall r | r in Without(s, k) ensures r.size >= 0 { assert r in s; }
  }

  /** Whatever the state of the lists, pfree never makes their total larger, and without a hole above it loses the
      block. */
  lemma FreedTotal(pool: Pool, k: nat)
    requires k < |pool.useds| && NonNegative(pool.frees) && NonNegative(pool.useds)
    ensures var pool' := PoolFreed(pool, k);
      NonNegative(pool'.frees) && NonNegative(pool'.useds) && Total(pool') <= Total(pool) &&
      (!HoleAbove(pool.frees, pool.useds[k].base) ==> Total(pool') <= Total(pool) - pool.useds[k].size)
  {
    var r, p := pool.useds[k], Above(pool.frees, pool.useds[k].base);
    WithoutNonNegative(pool.useds, k);
    if p == |pool.frees| {
      LostTotal(pool.frees, pool.useds, k);
    } else if r.End() <= pool.frees[p].base {
      SumInsert(pool.frees, p, r);
      assert NonNegative(Inserted(pool.frees, p, r));
      CoalescedTotal(Inserted(pool.frees, p, r), p);
    }
  }

  lemma LostTotal(frees: seq<Region>, useds: seq<Region>, k: nat)
    requires k < |useds| && NonNegative(useds)
    ensures var left := Lost(Heap(frees, useds, 0), k);
      left.frees == frees && NonNegative(left.useds) && Sum(left.useds) <= Sum(useds) - useds[k].size
  {
    var rest := Without(useds, k);
    LostCases(frees, useds, k);
    WithoutNonNegative(useds, k);
    if k < |rest| { WithoutNonNegative(rest, k); }
    if 0 < k < |rest| { GrownTotal(rest, k); }
  }

  lemma LostCases(frees: seq<Region>, useds: seq<Region>, k: nat)
    requires k < |useds|
    ensures var left, rest := Lost(Heap(frees, useds, 0), k), Without(useds, k);
      left.frees == frees &&
      (left.useds == rest || (k < |rest| && left.useds == Without(rest, k)) ||
      (0 < k < |rest| && left.useds == Grown(rest, k)))
  {}

  ghost function Grown(rest: seq<Region>, k: nat): seq<Region>
    requires 0 < k < |rest|
  {
    Without(rest[k - 1 := Region(rest[k - 1].base, rest[k - 1].size + rest[k].size)], k)
  }

  /** Adding entry k to the one before it and dropping it keeps the total. */
  lemma GrownTotal(rest: seq<Region>, k: nat)
    requires 0 < k < |rest| && NonNegative(rest)
    ensures NonNegative(Grown(rest, k)) && Sum(Grown(rest, k)) == Sum(rest)
  {
    var one := Region(rest[k - 1].base, rest[k - 1].size + rest[k].size);
    var grown := rest[k - 1 := one];
    assert rest[k - 1] in rest && rest[k] in rest;
    SumUpdate(rest, k - 1, one);
    forall r | r in grown ensures r.size >= 0 { assert r == one || r in rest; }
    WithoutNonNegative(grown, k);
  }

  // ---- holes above ----

  ghost predicate HasBase(s: seq<Region>, b: int) { exists k :: 0 <= k < |s| && s[k].base == b }

  lemma AboveByBase(s: seq<Region>, base: int)
    ensures HoleAbove(s, base) <==> exists k :: 0 <= k < |s| && s[k].base > base
  {}

  lemma JoinedBases(s: seq<Region>, i: nat, b: int)
    requires i + 1 < |s|
    ensures HasBase(Joined(s, i), b) ==> HasBase(s, b)
    ensures HasBase(s, b) && b != s[i + 1].base ==> HasBase(Joined(s, i), b)
  {
    var t := Joined(s, i);
    if HasBase(t, b) {
      var k :| 0 <= k < |t| && t[k].base == b;
      assert s[if k <= i then k else k + 1].base == b;
    }
    if HasBase(s, b) && b != s[i + 1].base {
      var k :| 0 <= k < |s| && s[k].base == b;
      assert t[if k <= i then k else k - 1].base == b;
    }
  }

  lemma InsertedBases(frees: seq<Region>, p: nat, r: Region, b: int)
    requires p <= |frees|
    ensures HasBase(Inserted(frees, p, r), b) <==> HasBase(frees, b) || b == r.base
  {
    var s := Inserted(frees, p, r);
    if HasBase(frees, b) {
      var k :| 0 <= k < |frees| && frees[k].base == b;
      assert s[if k < p then k else k + 1].base == b;
    }
    assert s[p].base == r.base;
    if HasBase(s, b) && b != r.base {
      var k :| 0 <= k < |s| && s[k].base == b;
      assert frees[if k < p then k else k - 1].base == b;
    }
  }

  /** Putting r back starts a hole where r does or where one did; only a hole that r reaches, or r itself, may be
      absorbed. */
  lemma MergedBases(frees: seq<Region>, p: nat, r: Region, b: int)
    requires p < |frees|
    ensures HasBase(Merged(frees, p, r), b) ==> HasBase(frees, b) || b == r.base
    ensures HasBase(frees, b) && b != frees[p].base && b != r.base ==> HasBase(Merged(frees, p, r), b)
    ensures r.End() != frees[p].base && b == frees[p].base && b != r.base ==> HasBase(Merged(frees, p, r), b)
    ensures b == r.base && b != frees[p].base && !(p > 0 && frees[p - 1].End() == r.base) ==>
      HasBase(Merged(frees, p, r), b)
  {
    var s := Inserted(frees, p, r);
    InsertedBases(frees, p, r, b);
    var t := if Touch(s, p) then Joined(s, p) else s;
    JoinedBases(s, p, b);
    assert t[p].base == r.base;
    if p > 0 { JoinedBases(t, p - 1, b); }
    assert HasBase(frees, frees[p].base);
  }

  /** A used block with a hole above it keeps one when another is freed. */
  lemma StillBelow(frees: seq<Region>, useds: seq<Region>, lo: int, hi: int, k: nat, u: Region)
    requires Tiled(frees, useds, lo, hi) && k < |useds| && HoleAbove(frees, useds[k].base) && u in useds &&
      u.base != useds[k].base
    requires HoleAbove(frees, u.base)
    ensures HoleAbove(Merged(frees, Above(frees, useds[k].base), useds[k]), u.base)
  {
    var r, p := useds[k], Above(frees, useds[k].base);
    AboveByBase(frees, u.base);
    AboveByBase(Merged(frees, p, r), u.base);
    Neighbours(frees, useds, lo, hi, k);
    UsedApart(frees, useds, lo, hi, k, u);
    var q :| 0 <= q < |frees| && frees[q].base > u.base;
    var b := BaseAbove(frees, p, r, u, frees[q].base);
  }

  /** A hole of the merged list that starts above u, given one of the old list that does. */
  lemma BaseAbove(frees: seq<Region>, p: nat, r: Region, u: Region, b: int) returns (b': int)
    requires p < |frees| && HasBase(frees, b) && b > u.base && r.base < frees[p].base && r.size > 0 && u.size > 0 &&
      Disjoint(u, r)
    requires Disjoint(frees[p], u) && (p > 0 ==> Disjoint(frees[p - 1], u) && frees[p - 1].size > 0)
    ensures HasBase(Merged(frees, p, r), b') && b' > u.base
  {
    if b != frees[p].base && b != r.base {
      b' := b;
    } else if r.End() != frees[p].base {
      b' := frees[p].base;
    } else if p > 0 && frees[p - 1].End() == r.base {
      b' := frees[p - 1].base;
      assert HasBase(frees, b');
    } else {
      b' := r.base;
    }
    MergedBases(frees, p, r, b');
  }

  /** Where a used block u lies in relation to used block k and the holes on both sides of it. */
  lemma UsedApart(frees: seq<Region>, useds: seq<Region>, lo: int, hi: int, k: nat, u: Region)
    requires Tiled(frees, useds, lo, hi) && k < |useds| && HoleAbove(frees, useds[k].base) && u in useds &&
      u.base != useds[k].base
    ensures u.size > 0 && useds[k].size > 0 && Disjoint(u, useds[k])
    ensures var p := Above(frees, useds[k].base);
      frees[p].size > 0 && Disjoint(frees[p], u) && (p > 0 ==> frees[p - 1].size > 0 && Disjoint(frees[p - 1], u))
  {
    var p := Above(frees, useds[k].base);
    var j :| 0 <= j < |useds| && useds[j] == u;
    assert if j < k then Disjoint(useds[j], useds[k]) else Disjoint(useds[k], useds[j]);
    assert InPool(u, lo, hi) && InPool(useds[k], lo, hi) && InPool(frees[p], lo, hi) && Clear(frees[p], useds);
    if p > 0 { assert InPool(frees[p - 1], lo, hi) && Clear(frees[p - 1], useds); }
  }

  /** A block with no hole above it has none when another is put back. */
  lemma StillExposed(frees: seq<Region>, k: nat, r: Region, base: int)
    requires HoleAbove(frees, r.base) && !HoleAbove(frees, base)
    ensures !HoleAbove(Merged(frees, Above(frees, r.base), r), base)
  {
    var p := Above(frees, r.base);
    var t := Merged(frees, p, r);
    AboveByBase(frees, base);
    AboveByBase(t, base);
    forall q | 0 <= q < |t| ensures t[q].base <= base { MergedBases(frees, p, r, t[q].base); }
  }

  lemma MirrorsRemove(runs: map<nat, nat>, useds: seq<Region>, k: nat)
    requires Mirrors(runs, useds) && k < |useds| && PairwiseDisjoint(useds) && forall u :: u in useds ==> u.size > 0
    ensures useds[k].base >= 0 && Mirrors(runs - {useds[k].base as nat}, Without(useds, k))
  {
    var r, rest := useds[k], Without(useds, k);
    assert r in useds;
    var runs' := runs - {r.base as nat};
    DropUsed(useds, k);
    forall u | u in rest ensures u.base >= 0 && u.size >= 0 && u.base in runs' && runs'[u.base] == u.size {
      assert u in useds && Disjoint(r, u);
    }
    forall b | b in runs' ensures Region(b, runs'[b]) in rest {
      var j :| 0 <= j < |useds| && useds[j] == Region(b, runs[b]);
      assert rest[if j < k then j else j - 1] == useds[j];
    }
  }

  lemma FreeKeepsWhole(pool: Pool, runs: map<nat, nat>, lo: nat, hi: nat, k: nat)
    requires Whole(pool, runs, lo, hi) && k < |pool.useds| && HoleAbove(pool.frees, pool.useds[k].base)
    ensures pool.useds[k].base >= 0 && Whole(PoolFreed(pool, k), runs - {pool.useds[k].base as nat}, lo, hi)
    ensures PoolFreed(pool, k).frees == Merged(pool.frees, Above(pool.frees, pool.useds[k].base), pool.useds[k])
  {
    var r := pool.useds[k];
    Neighbours(pool.frees, pool.useds, lo, hi, k);
    ReleaseKeepsTiling(pool.frees, pool.useds, lo, hi, k);
    forall u | u in pool.useds ensures u.size > 0 { assert InPool(u, lo, hi); }
    MirrorsRemove(runs, pool.useds, k);
    MirrorsGood(runs - {r.base as nat}, Without(pool.useds, k), lo, hi);
  }

  /** Block b is back in a pool that is still whole; nothing else moved relative to the holes. */
  ghost predicate GaveBack(pool: Pool, runs: map<nat, nat>, b: nat, pool': Pool, runs': map<nat, nat>, lo: nat, hi: nat)
  {
    && Whole(pool', runs', lo, hi) && runs' == runs - {b} && pool'.spares == pool.spares
    && (forall u {:trigger HoleAbove(pool'.frees, u)} :: u in runs' && HoleAbove(pool.frees, u) ==>
         HoleAbove(pool'.frees, u))
    && (forall u {:trigger HoleAbove(pool'.frees, u)} :: !HoleAbove(pool.frees, u) ==> !HoleAbove(pool'.frees, u))
  }

  lemma GivesBack(pool: Pool, runs: map<nat, nat>, lo: nat, hi: nat, k: nat)
    requires Whole(pool, runs, lo, hi) && k < |pool.useds| && HoleAbove(pool.frees, pool.useds[k].base)
    ensures pool.useds[k].base >= 0 &&
      GaveBack(pool, runs, pool.useds[k].base, PoolFreed(pool, k), runs - {pool.useds[k].base as nat}, lo, hi)
  {
    var r, pool' := pool.useds[k], PoolFreed(pool, k);
    FreeKeepsWhole(pool, runs, lo, hi, k);
    var runs' := runs - {r.base as nat};
    forall u {:trigger HoleAbove(pool'.frees, u)} | u in runs' && HoleAbove(pool.frees, u)
      ensures HoleAbove(pool'.frees, u)
    {
      StillBelow(pool.frees, pool.useds, lo, hi, k, Region(u, runs[u]));
    }
    forall u {:trigger HoleAbove(pool'.frees, u)} | !HoleAbove(pool.frees, u) ensures !HoleAbove(pool'.frees, u) {
      StillExposed(pool.frees, k, r, u);
    }
  }

  /** A pool whose lists add up to less than it is not whole. */
  lemma ShortIsBroken(pool: Pool, runs: map<nat, nat>, lo: nat, hi: nat)
    requires Total(pool) < hi - lo
    ensures !Whole(pool, runs, lo, hi)
  {}

  /** pfree keeps the pool whole exactly when a hole lies above the block. */
  lemma FreeKeepsWholeIff(pool: Pool, runs: map<nat, nat>, lo: nat, hi: nat, k: nat)
    requires Whole(pool, runs, lo, hi) && k < |pool.useds|
    ensures pool.useds[k].base >= 0
    ensures Whole(PoolFreed(pool, k), runs - {pool.useds[k].base as nat}, lo, hi) <==>
      HoleAbove(pool.frees, pool.useds[k].base)
  {
    assert InPool(pool.useds[k], lo, hi);
    if HoleAbove(pool.frees, pool.useds[k].base) {
      FreeKeepsWhole(pool, runs, lo, hi, k);
    } else {
      WholeIsSteady(pool, runs, lo, hi);
      FreedTotal(pool, k);
    }
  }

  lemma WholeIsSteady(pool: Pool, runs: map<nat, nat>, lo: nat, hi: nat)
    requires Whole(pool, runs, lo, hi)
    ensures NonNegative(pool.frees) && NonNegative(pool.useds) && Total(pool) == hi - lo
  {
    forall r | r in pool.frees || r in pool.useds ensures r.size >= 0 { assert InPool(r, lo, hi); }
  }

  /** A pool handed out whole cannot be given back. */
  lemma LastRunIsLost()
    ensures var pool := PoolTaken(Pool([Region(16, 8)], [], 3, 0), 0, 8);
      pool.useds == [Region(16, 8)] && PoolFreed(pool, 0).frees == [] && PoolFreed(pool, 0).useds == []
  {
    var frees := [Region(16, 8)];
    assert Without(frees, 0) == [] && Without([Region(16, 8)] + [], 0) == [];
  }

  // ---- descriptors ----

  /** The descriptors the pool can still use. */
  ghost function Count(pool: Pool): int { |pool.frees| + |pool.useds| + pool.spares }

  /** Block k ends where the hole above it starts, or starts where the hole below it ends. */
  ghost predicate Touches(pool: Pool, k: nat)
    requires k < |pool.useds| && HoleAbove(pool.frees, pool.useds[k].base)
  {
    var r, p := pool.useds[k], Above(pool.frees, pool.useds[k].base);
    r.End() == pool.frees[p].base || (p > 0 && pool.frees[p - 1].End() == r.base)
  }

  lemma TakeKeepsCount(pool: Pool, i: nat, m: int)
    requires i < |pool.frees|
    ensures Count(PoolTaken(pool, i, m)) == Count(pool) && PoolTaken(pool, i, m).leaked == pool.leaked
  {}

  /** A release keeps the pool's descriptors exactly if it puts the block back without a merge: what a merge saves goes
      to the kernel's list. Counting those, it keeps them exactly if a hole lies above; otherwise one is gone. */
  lemma FreeKeepsCountIff(pool: Pool, runs: map<nat, nat>, lo: nat, hi: nat, k: nat)
    requires Whole(pool, runs, lo, hi) && k < |pool.useds|
    ensures var pool', above := PoolFreed(pool, k), HoleAbove(pool.frees, pool.useds[k].base);
      && (Count(pool') == Count(pool) <==> above && !Touches(pool, k))
      && Count(pool') + pool'.leaked == Count(pool) + pool.leaked - (if above then 0 else 1)
      && pool.leaked <= pool'.leaked <= pool.leaked + 2
  {
    if HoleAbove(pool.frees, pool.useds[k].base) {
      Neighbours(pool.frees, pool.useds, lo, hi, k);
      MergedLength(pool.frees, Above(pool.frees, pool.useds[k].base), pool.useds[k]);
    }
  }

  lemma MergedLength(frees: seq<Region>, p: nat, r: Region)
    requires p < |frees|
    ensures |Merged(frees, p, r)| == |frees| + 1 - (if r.End() == frees[p].base then 1 else 0)
                                     - (if p > 0 && frees[p - 1].End() == r.base then 1 else 0)
  {
    var s := Inserted(frees, p, r);
    assert s[p] == r && s[p + 1] == frees[p];
    if p > 0 {
      assert s[p - 1] == frees[p - 1];
      if Touch(s, p) { assert Joined(s, p)[p - 1] == s[p - 1] && Joined(s, p)[p].base == r.base; }
    }
  }

  /** m frames taken by first fit and given straight back. */
  ghost function AfterPair(pool: Pool, m: int): Pool
    requires FirstFit(pool.frees, m) < |pool.frees|
  {
    PoolFreed(PoolTaken(pool, FirstFit(pool.frees, m), m), 0)
  }

  /** If the hole is split, the lists are as they were, and a descriptor has changed hands. */
  lemma PairLeaks(pool: Pool, lo: int, hi: int, m: nat)
    requires SortedApart(pool.frees) && AllInPool(pool.frees, lo, hi) && m > 0
    requires var i := FirstFit(pool.frees, m); i < |pool.frees| && pool.frees[i].size > m
    ensures AfterPair(pool, m) == pool.(spares := pool.spares - 1, leaked := pool.leaked + 1)
  {
    var i := FirstFit(pool.frees, m);
    var left, r := TakenFrom(pool.frees, i, m, true), Part(pool.frees[i], m, true);
    HoleAboveAfterTake(pool.frees, lo, hi, i, m, true);
    TakeMergeRestores(pool.frees, lo, hi, i, m, true);
    PutBack(Pool(left, [r] + pool.useds, pool.spares - 1, pool.leaked), 0, i, pool.frees);
    assert Without([r] + pool.useds, 0) == pool.useds;
  }

  lemma PutBack(pool: Pool, k: nat, p: nat, frees: seq<Region>)
    requires k < |pool.useds| && p == Above(pool.frees, pool.useds[k].base) < |pool.frees|
    requires pool.useds[k].End() <= pool.frees[p].base && frees == Merged(pool.frees, p, pool.useds[k])
    ensures PoolFreed(pool, k) ==
      Pool(frees, Without(pool.useds, k), pool.spares, pool.leaked + |pool.frees| + 1 - |frees|)
  {}

  /** Every pool is the one before it after such a pair. */
  ghost predicate Pairs(pools: seq<Pool>, m: int)
  {
    forall k :: 0 <= k < |pools| - 1 ==> IsPair(pools[k], pools[k + 1], m)
  }

  ghost predicate IsPair(pool: Pool, next: Pool, m: int)
  {
    FirstFit(pool.frees, m) < |pool.frees| && next == AfterPair(pool, m)
  }

  /** So after n such pairs n descriptors are on the kernel's list. */
  lemma {:induction false} PairsLeak(pools: seq<Pool>, lo: int, hi: int, m: nat, n: nat)
    requires Pairs(pools, m) && n < |pools| && m > 0 && SortedApart(pools[0].frees) && AllInPool(pools[0].frees, lo, hi)
    requires var i := FirstFit(pools[0].frees, m); i < |pools[0].frees| && pools[0].frees[i].size > m
    ensures pools[n] == Handed(pools[0], n)
  {
    if n > 0 {
      var k := n - 1;
      PairsLeak(pools, lo, hi, m, k);
      HandedOn(pools[0], k, pools[k], pools[n], lo, hi, m);
    }
  }

  /** The same lists with n descriptors fewer. */
  ghost function Handed(pool: Pool, n: nat): Pool
  {
    Pool(pool.frees, pool.useds, pool.spares - n, pool.leaked + n)
  }

  lemma HandedOn(first: Pool, k: nat, pool: Pool, next: Pool, lo: int, hi: int, m: nat)
    requires SortedApart(first.frees) && AllInPool(first.frees, lo, hi) && m > 0
    requires pool == Handed(first, k) && IsPair(pool, next, m) && pool.frees[FirstFit(pool.frees, m)].size > m
    ensures next == Handed(first, k + 1)
  {
    PairLeaks(pool, lo, hi, m);
  }

  /** After as many as there were spare, the next request that splits has none. */
  lemma RunsDry(pools: seq<Pool>, lo: int, hi: int, m: nat, n: nat)
    requires Pairs(pools, m) && n < |pools| && m > 0 && SortedApart(pools[0].frees) && AllInPool(pools[0].frees, lo, hi)
    requires var i := FirstFit(pools[0].frees, m); i < |pools[0].frees| && pools[0].frees[i].size > m
    ensures CanTake(pools[n], m) <==> n < pools[0].spares
  {
    PairsLeak(pools, lo, hi, m, n);
  }

  ghost function EightFrames(spares: int, leaked: int): Pool { Pool([Region(16, 8)], [], spares, leaked) }

  lemma EightFramesPair(spares: nat, leaked: int)
    requires spares > 0
    ensures IsPair(EightFrames(spares, leaked), EightFrames(spares - 1, leaked + 1), 1)
  {
    PairLeaks(EightFrames(spares, leaked), 16, 24, 1);
  }

  /** A pool of eight frames and four descriptors, of which three are spare: one frame taken and given back, three
      times over, leaves none. */
  lemma ThreePairsRunDry()
    ensures Pairs([EightFrames(3, 0), EightFrames(2, 1), EightFrames(1, 2), EightFrames(0, 3)], 1)
    ensures !CanTake(EightFrames(0, 3), 1)
  {
    EightFramesPair(3, 0);
    EightFramesPair(2, 1);
    EightFramesPair(1, 2);
  }

  lemma CoalescedForms(s: seq<Region>, p: nat)
    requires p + 1 < |s|
    ensures Touch(s, p) && (p > 0 ==> !Touch(s, p - 1)) ==> Coalesced(s, p) == Joined(s, p)
    ensures !Touch(s, p) && p > 0 && Touch(s, p - 1) ==> Coalesced(s, p) == Joined(s, p - 1)
    ensures !Touch(s, p) && (p > 0 ==> !Touch(s, p - 1)) ==> Coalesced(s, p) == s
    ensures Touch(s, p) && p > 0 && Touch(s, p - 1) ==>
      Coalesced(s, p) ==
      s[..p - 1] + [Region(s[p - 1].base, s[p - 1].size + s[p].size + s[p + 1].size)] + s[p + 2..]
  {
    var j := Joined(s, p);
    if p > 0 { assert j[p - 1] == s[p - 1] && j[p].base == s[p].base && j[p + 1..] == s[p + 2..]; }
  }

  /** Merging with the neighbours, by the three cases of the code. */
  method Coalesce(s: seq<Region>, p: nat) returns (t: seq<Region>)
    requires p + 1 < |s|
    ensures t == Coalesced(s, p)
  {
    var below := p > 0 && s[p - 1].base + s[p - 1].size == s[p].base;
    var above := s[p].base + s[p].size == s[p + 1].base;
    if below && above {
      t := s[..p - 1] + [Region(s[p - 1].base, s[p - 1].size + s[p].size + s[p + 1].size)] + s[p + 2..];
    } else if below {
      t := s[..p - 1] + [Region(s[p - 1].base, s[p - 1].size + s[p].size)] + s[p + 1..];
    } else if above {
      t := s[..p] + [Region(s[p].base, s[p].size + s[p + 1].size)] + s[p + 2..];
    } else {
      t := s;
    }
    CoalescedForms(s, p);
  }

  /** The same code when the block was linked nowhere: its neighbours are those it had on the used list. */
  method Mislay(useds: seq<Region>, k: nat) returns (left: seq<Region>, recycled: nat)
    requires k < |useds|
    ensures forall frees :: Lost(Heap(frees, useds, 0), k) == Heap(frees, left, recycled)
  {
    var r, rest := useds[k], useds[..k] + useds[k + 1..];
    var below := k > 0 && rest[k - 1].base + rest[k - 1].size == r.base;
    var above := k < |rest| && r.base + r.size == rest[k].base;
    left, recycled := rest, 0;
    if above {
      if below { rest := rest[k - 1 := Region(rest[k - 1].base, rest[k - 1].size + rest[k].size)]; }
      left, recycled := rest[..k] + rest[k + 1..], 1;
    }
  }

  class Vm {
    const lo: nat                // first frame of the pool
    var mem: seq<Page>
    var pool: Pool
    ghost var runs: map<nat, nat>

    /** init_hole_pool: one hole, every other descriptor spare. */
    constructor (lo: nat, mem: seq<Page>, descriptors: nat)
      requires 0 < lo < |mem| && Framed(mem) && descriptors > 0
      ensures Valid() && this.lo == lo && this.mem == mem && runs == map[] && pool.frees == [Region(lo, |mem| - lo)] &&
        pool.spares == descriptors - 1
    {
      this.lo, this.mem, this.runs := lo, mem, map[];
      this.pool := Pool([Region(lo, |mem| - lo)], [], descriptors - 1, 0);
      new;
      assert Sum([Region(lo, |mem| - lo)]) == |mem| - lo by { assert [Region(lo, |mem| - lo)][1..] == []; }
    }

    ghost predicate Valid()
      reads this
    {
      lo > 0 && Framed(mem) && Whole(pool, runs, lo, |mem|)
    }

    /** True of the lists in any state. */
    ghost predicate Steady()
      reads `pool
    {
      NonNegative(pool.frees) && NonNegative(pool.useds)
    }

    /** palloc: the lowest place that fits. The demand: a descriptor, if a hole is to be split. */
    method Palloc(n: nat) returns (b: nat)
      requires Valid() && CanTake(pool, Frames(n))
      modifies `pool, `runs
      ensures Valid() && pool.spares >= old(pool).spares - 1 && pool.leaked == old(pool).leaked
      ensures Count(pool) == Count(old(pool)) && Requested(old(pool), Frames(n), b, pool)
      ensures var m := Frames(n);
        if b == 0 then pool == old(pool) && runs == old(runs) && forall a :: lo <= a && a + m <= |mem| ==>
        !FreeRange(runs, a, m)
        else runs == old(runs)[b := m] && lo <= b && b + m <= |mem| && FreeRange(old(runs), b, m) &&
             forall a :: lo <= a < b ==> !FreeRange(old(runs), a, m)
    {
      var m := Frames(n);
      var i := 0;
      while i < |pool.frees| && pool.frees[i].size < m
        invariant 0 <= i <= |pool.frees| && forall k :: 0 <= k < i ==> pool.frees[k].size < m
      {
        i := i + 1;
      }
      forall a: nat | lo <= a && a + m <= |mem| && (i < |pool.frees| ==> a < pool.frees[i].base)
        ensures !FreeRange(runs, a, m)
      {
        NoneBelow(pool, runs, lo, |mem|, i, m, a);
      }
      if i == |pool.frees| { return 0; }
      b := Take(i, m);
    }

    /** m frames from the bottom of hole i. */
    method Take(i: nat, m: nat) returns (b: nat)
      requires Valid() && i < |pool.frees| && 0 < m <= pool.frees[i].size &&
        (pool.frees[i].size > m ==> pool.spares > 0)
      modifies `pool, `runs
      ensures Valid() && pool == PoolTaken(old(pool), i, m) && b == old(pool).frees[i].base && runs == old(runs)[b := m]
      ensures lo <= b && b + m <= |mem| && FreeRange(old(runs), b, m)
    {
      TakeKeepsWhole(pool, runs, lo, |mem|, i, m);
      var hole := pool.frees[i];
      b := hole.base;
      if hole.size > m {
        pool := Pool(pool.frees[i := Region(hole.base + m, hole.size - m)], [Region(hole.base, m)] + pool.useds,
          pool.spares - 1, pool.leaked);
      } else {
        pool := Pool(pool.frees[..i] + pool.frees[i + 1..], [hole] + pool.useds, pool.spares, pool.leaked);
      }
      runs := runs[b := m];
    }

    /** pfree. From a whole pool, the block that starts at b goes back if a hole lies above it, and is lost if none
        does. */
    method Pfree(b: nat) returns (ok: bool)
      requires Steady()
      modifies `pool, `runs
      ensures Steady() && Total(pool) <= Total(old(pool))
      ensures old(Valid()) && b !in old(runs) ==> !ok && pool == old(pool) && runs == old(runs)
      ensures old(Valid()) && b in old(runs) && HoleAbove(old(pool).frees, b) ==>
        ok && GaveBack(old(pool), old(runs), b, pool, runs, lo, |mem|)
      ensures old(Valid()) && b in old(runs) && !HoleAbove(old(pool).frees, b) ==> Total(pool) < Total(old(pool))
      ensures old(Valid()) && b in old(runs) ==>
        (Count(pool) + pool.leaked == Count(old(pool)) + old(pool).leaked <==> HoleAbove(old(pool).frees, b))
    {
      var k := FindUsed(b);
      if k == |pool.useds| {
        if Valid() && b in runs { assert Region(b, runs[b]) in pool.useds; }
        return false;
      }
      FreedTotal(pool, k);
      if Valid() {
        assert InPool(pool.useds[k], lo, |mem|) && pool.useds[k] in pool.useds;
        FreeKeepsCountIff(pool, runs, lo, |mem|, k);
        if HoleAbove(pool.frees, b) {
          Neighbours(pool.frees, pool.useds, lo, |mem|, k);
          GivesBack(pool, runs, lo, |mem|, k);
        }
      }
      ok := Unlink(k);
      runs := runs - {b};
    }

    /** _search_used_mhole: the first used block that starts at b, or the length of the list. */
    method FindUsed(b: nat) returns (k: nat)
      ensures k <= |pool.useds| && (k < |pool.useds| ==> pool.useds[k].base == b)
      ensures forall j :: 0 <= j < k ==> pool.useds[j].base != b
    {
      k := 0;
      while k < |pool.useds| && pool.useds[k].base != b
        invariant k <= |pool.useds| && forall j :: 0 <= j < k ==> pool.useds[j].base != b
      {
        k := k + 1;
      }
    }

    /** The rest of pfree, for used block k. */
    method Unlink(k: nat) returns (ok: bool)
      requires k < |pool.useds|
      modifies `pool
      ensures pool == PoolFreed(old(pool), k)
      ensures var r := old(pool).useds[k]; var p := Above(old(pool).frees, r.base);
        ok == (p == |old(pool).frees| || r.base + r.size <= old(pool).frees[p].base)
    {
      var r := pool.useds[k];
      var p := 0;
      while p < |pool.frees| && pool.frees[p].base <= r.base
        invariant 0 <= p <= |pool.frees| && forall j :: 0 <= j < p ==> pool.frees[j].base <= r.base
      {
        p := p + 1;
      }
      assert p == Above(pool.frees, r.base);
      ok := true;
      if p == |pool.frees| {
        var left, recycled := Mislay(pool.useds, k);
        assert Lost(Heap(pool.frees, pool.useds, 0), k) == Heap(pool.frees, left, recycled);
        pool := Pool(pool.frees, left, pool.spares, pool.leaked + recycled);
      } else {
        var rest := pool.useds[..k] + pool.useds[k + 1..];
        if r.base + r.size > pool.frees[p].base {
          pool := pool.(useds := rest);
          return false;
        }
        var s := pool.frees[..p] + [r] + pool.frees[p..];
        var frees := Coalesce(s, p);
        pool := Pool(frees, rest, pool.spares, pool.leaked + |pool.frees| + 1 - |frees|);
      }
    }
  }
}
