/** A pool with one free frame, and a clone that takes it for a table and then finds no frame for the page. */
module PageShortage {
  import opened PageRuns
  import opened HeapSpec
  import opened PagePool
  import opened PageTables
  import opened PageFates
  import opened PageSpaces
  import opened PageClone

  // Frame 1 holds a page, frame 2 the table that maps it, and frame 3 is free.

  ghost function Table(): Page { ZeroPage()[0 := Word(1, PRESENT)] }

  ghost function Memory(): seq<Page> { [ZeroPage(), ZeroPage(), Table(), ZeroPage()] }

  ghost function Parent(): seq<Word> { seq(ENTRIES, i => if i == 0 then Word(2, PRESENT) else ZERO) }

  ghost function Runs(): map<nat, nat> { map[1 := 1, 2 := 1] }

  ghost function OneFree(): Pool { Pool([Region(3, 1)], [Region(2, 1), Region(1, 1)], 8, 0) }

  lemma OneFreeIsWhole()
    ensures Whole(OneFree(), Runs(), 1, 4)
  {
    var f, u := OneFree().frees, OneFree().useds;
    assert f[1..] == [] && u[1..] == [Region(1, 1)] && u[1..][1..] == [];
    assert Sum(f) == 1 && Sum(u[1..]) == 1 && Sum(u) == 2;
    assert forall r :: r in u <==> r == Region(2, 1) || r == Region(1, 1);
    assert Region(1, Runs()[1]) in u && Region(2, Runs()[2]) in u by { assert u[1] in u && u[0] in u; }
  }

  lemma ParentPages()
    ensures PagesOf(Memory(), Parent())[0] == Word(1, PRESENT)
    ensures forall v :: 0 < v < USER_PAGES ==> PagesOf(Memory(), Parent())[v] == ZERO
  {
    var p := PagesOf(Memory(), Parent());
    assert p[0] == Pt(Memory(), Parent(), 0) == Table()[0];
    forall v | 0 < v < USER_PAGES ensures p[v] == ZERO {
      assert p[v] == Pt(Memory(), Parent(), v);
      if v / ENTRIES == 0 { assert v % ENTRIES == v; }
    }
  }

  lemma ParentIsGood()
    ensures SpaceGood(Memory(), Runs(), Parent())
  {
    ParentPages();
    var p := PagesOf(Memory(), Parent());
    assert Head(p[0]) && InPlace(p[0], 1, 0);
    assert Covers(p, Runs(), 0, 0);
    assert HeadFrames(p) == {1};
    assert TableFrames(Parent()) == {2} by { assert Parent()[0].frame == 2; }
  }

  /** The clone takes frame 3 for its table and then fails. */
  lemma OneFrameShort()
    ensures DirFate(OneFree(), Memory(), Parent(), 0) == NoRun(PoolTaken(OneFree(), 0, 1))
    ensures NewlyTaken(PoolTaken(OneFree(), 0, 1), Runs()) == {3}
  {
    var pool := PoolTaken(OneFree(), 0, 1);
    assert FirstFit(OneFree().frees, 1) == 0;
    assert pool.frees == [] by { assert Without([Region(3, 1)], 0) == []; }
    assert TableFate(pool, Table(), 0) == NoRun(pool);
    assert Region(3, 1) in pool.useds;
  }

  lemma CostIsTwo()
    ensures CloneCost(Memory(), Parent(), 0) == 2 <= OneFree().spares
  {
    NoRunsFrom(Table(), 1);
    assert Parent()[0] == Word(2, PRESENT) && Memory()[2] == Table();
    EmptyCost(1);
  }

  lemma {:induction false} NoRunsFrom(src: Page, pt: nat)
    requires 0 < pt <= |src| && forall j :: pt <= j < |src| ==> !Present(src[j])
    ensures Starts(src, pt) == 0
    decreases |src| - pt
  {
    if pt < |src| { NoRunsFrom(src, pt + 1); }
  }

  lemma {:induction false} EmptyCost(pd: nat)
    requires 0 < pd <= USER
    ensures CloneCost(Memory(), Parent(), pd) == 0
    decreases USER - pd
  {
    if pd < USER { EmptyCost(pd + 1); }
  }

  /** A clone that fails in its first table, the only thing it has taken. */
  method FailsAtFirst(vm: Vm, dst: array<Word>, src: array<Word>, ghost at: Pool, ghost t: nat) returns (ok: bool)
    requires vm.Valid() && dst.Length == ENTRIES && src.Length == ENTRIES && dst != src
    requires SpaceGood(vm.mem, vm.runs, src[..]) && (forall pd :: 0 <= pd < USER ==> dst[pd] == ZERO)
    requires vm.pool.spares >= CloneCost(vm.mem, src[..], 0)
    requires DirFate(vm.pool, vm.mem, src[..], 0) == NoRun(at) && NewlyTaken(at, vm.runs) == {t}
    modifies vm`runs, vm`pool, vm`mem, dst
    ensures !ok && vm.Valid() && vm.runs.Keys == old(vm.runs).Keys + {t} && t !in old(vm.runs)
    ensures forall pd :: 0 <= pd < USER ==> dst[pd] == ZERO
  {
    ghost var pool, held, stub;
    ok, pool, held, stub := CloneProcessPages(vm, dst, src);
    OnlyOne(held, stub, t);
    assert forall pd :: 0 <= pd < USER ==> dst[..][pd] == dst[pd];
  }

  lemma OnlyOne(held: set<nat>, stub: Stub, t: nat)
    requires stub.Begun? && held + Left(stub) == {t} && held !! Left(stub)
    ensures held == {} && Left(stub) == {t}
  {
    assert stub.table in Left(stub);
  }
}
