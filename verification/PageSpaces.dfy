/** free_process_pages of page.c. */
module PageSpaces {
  import HeapSpec
  import opened PageRuns
  import opened PagePool
  import opened PageTables

  // ---- what has been given back ----

  lemma HeadFramesConcat(a: seq<Word>, b: seq<Word>)
    ensures HeadFrames(a + b) == HeadFrames(a) + HeadFrames(b)
  {
    forall f | f in HeadFrames(b) ensures f in HeadFrames(a + b) {
      var h :| 0 <= h < |b| && Head(b[h]) && b[h].frame == f;
      assert (a + b)[|a| + h] == b[h];
    }
    forall f | f in HeadFrames(a) ensures f in HeadFrames(a + b) {
      var h :| 0 <= h < |a| && Head(a[h]) && a[h].frame == f;
      assert (a + b)[h] == a[h];
    }
  }

  lemma HeadFramesSnoc(pages: seq<Word>, v: nat)
    requires v < |pages|
    ensures HeadFrames(pages[..v + 1]) == HeadFrames(pages[..v]) + (if Head(pages[v]) then {pages[v].frame} else {})
  {
    assert pages[..v + 1] == pages[..v] + [pages[v]];
    HeadFramesConcat(pages[..v], [pages[v]]);
    assert HeadFrames([pages[v]]) == if Head(pages[v]) then {pages[v].frame} else {} by {
      assert [pages[v]][0] == pages[v];
    }
  }

  /** A run is freed when its head is met, and not before. */
  lemma HeadStillHeld(pages: seq<Word>, runs: map<nat, nat>, v: nat)
    requires RunsGood(pages, runs) && v < |pages| && Head(pages[v])
    ensures pages[v].frame in runs && pages[v].frame !in HeadFrames(pages[..v])
  {
    assert HeadGood(pages, runs, v);
  }

  lemma WithoutTwice(m: map<nat, nat>, a: set<nat>, b: set<nat>)
    ensures m - a - b == m - (a + b)
  {}

  /** Tables named by the first n directory entries. */
  ghost function TablesBefore(dir: seq<Word>, n: nat): set<nat>
    requires n <= |dir| && n <= USER
  {
    TableFrames(dir[..n])
  }

  lemma TablesSnoc(dir: seq<Word>, n: nat)
    requires n < |dir| && n < USER
    ensures TablesBefore(dir, n + 1) == TablesBefore(dir, n) + (if dir[n] != ZERO then {dir[n].frame} else {})
  {
    var a, b := dir[..n], dir[..n + 1];
    forall f | f in TableFrames(b) ensures f in TableFrames(a) + (if dir[n] != ZERO then {dir[n].frame} else {}) {
      var pd :| 0 <= pd < USER && pd < |b| && b[pd] != ZERO && b[pd].frame == f;
      assert pd < n ==> a[pd] == b[pd];
    }
    forall f | f in TableFrames(a) ensures f in TableFrames(b) {
      var pd :| 0 <= pd < USER && pd < |a| && a[pd] != ZERO && a[pd].frame == f;
      assert a[pd] == b[pd];
    }
    assert b[n] == dir[n];
  }

  lemma TableStillHeld(mem: seq<Page>, runs: map<nat, nat>, dir: seq<Word>, n: nat)
    requires TablesGood(mem, runs, dir) && n < USER && dir[n] != ZERO
    ensures dir[n].frame in runs && dir[n].frame !in TablesBefore(dir, n) && dir[n].frame in TableFrames(dir)
    ensures TablesBefore(dir, n) <= TableFrames(dir)
  {
    forall f | f in TablesBefore(dir, n) ensures f in TableFrames(dir) && f != dir[n].frame {
      var pd :| 0 <= pd < n && dir[..n][pd] != ZERO && dir[..n][pd].frame == f;
      assert dir[pd] == dir[..n][pd];
    }
  }

  /** Pages up to v and tables up to n have been given back. */
  ghost predicate Returned(pages: seq<Word>, dir: seq<Word>, runs: map<nat, nat>, v: nat, n: nat, runs': map<nat, nat>)
  {
    v <= |pages| && n <= USER <= |dir| && runs' == runs - (HeadFrames(pages[..v]) + TablesBefore(dir, n))
  }

  lemma ReturnedStart(pages: seq<Word>, dir: seq<Word>, runs: map<nat, nat>)
    requires |dir| >= USER
    ensures Returned(pages, dir, runs, 0, 0, runs)
  {
    assert HeadFrames(pages[..0]) == {} && TablesBefore(dir, 0) == {};
  }

  lemma ReturnedPage(pages: seq<Word>, dir: seq<Word>, runs: map<nat, nat>, v: nat, n: nat, runs': map<nat, nat>)
    requires Returned(pages, dir, runs, v, n, runs') && v < |pages|
    ensures Returned(pages, dir, runs, v + 1, n, if Head(pages[v]) then runs' - {pages[v].frame} else runs')
  {
    HeadFramesSnoc(pages, v);
    var s, t := HeadFrames(pages[..v]), TablesBefore(dir, n);
    var f := if Head(pages[v]) then {pages[v].frame} else {};
    WithoutTwice(runs, s + t, f);
    assert (s + f) + t == (s + t) + f;
    assert runs' - {} == runs';
  }

  lemma ReturnedTable(pages: seq<Word>, dir: seq<Word>, runs: map<nat, nat>, v: nat, n: nat, runs': map<nat, nat>)
    requires Returned(pages, dir, runs, v, n, runs') && n < USER
    ensures Returned(pages, dir, runs, v, n + 1, if dir[n] != ZERO then runs' - {dir[n].frame} else runs')
  {
    TablesSnoc(dir, n);
    var s, t := HeadFrames(pages[..v]), TablesBefore(dir, n);
    var f := if dir[n] != ZERO then {dir[n].frame} else {};
    WithoutTwice(runs, s + t, f);
    assert s + (t + f) == (s + t) + f;
    assert runs' - {} == runs';
  }

  /** page is what pages holds from v on. */
  ghost predicate TableAt(pages: seq<Word>, v: nat, page: Page)
  {
    |page| == ENTRIES && v + ENTRIES <= |pages| && forall j {:trigger page[j]} :: 0 <= j < ENTRIES ==>
    page[j] == pages[v + j]
  }

  // ---- pfree, run by run ----

  /** A hole lies above each of these. */
  ghost predicate FreeAbove(frees: seq<HeapSpec.Region>, bs: set<nat>)
  {
    forall b :: b in bs ==> HeapSpec.HoleAbove(frees, b)
  }

  /** The blocks still in use have a hole above them now exactly if they had one before. */
  ghost predicate Tracked(frees0: seq<HeapSpec.Region>, frees: seq<HeapSpec.Region>, runs: map<nat, nat>)
  {
    forall b {:trigger HeapSpec.HoleAbove(frees, b)} :: b in runs ==>
    (HeapSpec.HoleAbove(frees, b) <==> HeapSpec.HoleAbove(frees0, b))
  }

  /** What free_process_pages works on: the space, and the pool it starts from. */
  datatype Job = Job(pages: seq<Word>, dir: seq<Word>, runs: map<nat, nat>, pool: Pool, lo: nat, hi: nat)

  ghost predicate JobGood(j: Job)
  {
    && |j.pages| == USER_PAGES && |j.dir| == ENTRIES && RunsGood(j.pages, j.runs)
    && HeadFrames(j.pages) !! TableFrames(j.dir)
    && TableFrames(j.dir) <= j.runs.Keys && Whole(j.pool, j.runs, j.lo, j.hi)
  }

  ghost function JobKeys(j: Job): set<nat> { HeadFrames(j.pages) + TableFrames(j.dir) }

  ghost function Done(j: Job, v: nat, n: nat): set<nat>
    requires v <= |j.pages| && n <= USER && n <= |j.dir|
  {
    HeadFrames(j.pages[..v]) + TablesBefore(j.dir, n)
  }

  /** Part of the way: some block was lost, or all so far had a hole above them and are back in the pool. */
  ghost predicate Progress(j: Job, v: nat, n: nat, pool: Pool, runs: map<nat, nat>, ok: bool)
  {
    && JobGood(j) && v <= |j.pages| && n <= USER && Total(pool) <= j.hi - j.lo
    && if Total(pool) < j.hi - j.lo then !FreeAbove(j.pool.frees, JobKeys(j))
       else
         && ok && Whole(pool, runs, j.lo, j.hi) && Returned(j.pages, j.dir, j.runs, v, n, runs)
         && Tracked(j.pool.frees, pool.frees, runs)
         && FreeAbove(j.pool.frees, Done(j, v, n)) && pool.spares == j.pool.spares
  }

  lemma ProgressStart(j: Job)
    requires JobGood(j)
    ensures Progress(j, 0, 0, j.pool, j.runs, true)
  {
    WholeIsSteady(j.pool, j.runs, j.lo, j.hi);
    ReturnedStart(j.pages, j.dir, j.runs);
    assert HeadFrames(j.pages[..0]) == {} && TablesBefore(j.dir, 0) == {};
  }

  /** How a pfree of b ends, from any state of the lists. */
  ghost predicate FreedTo(pool: Pool, runs: map<nat, nat>, b: nat, pool': Pool, runs': map<nat, nat>, ok: bool,
                          lo: nat, hi: nat)
  {
    && Total(pool') <= Total(pool)
    && (Whole(pool, runs, lo, hi) && b in runs && HeapSpec.HoleAbove(pool.frees, b) ==>
         ok &&
         GaveBack(pool, runs, b, pool', runs', lo, hi))
    && (Whole(pool, runs, lo, hi) && b in runs && !HeapSpec.HoleAbove(pool.frees, b) ==> Total(pool') < Total(pool))
  }

  /** Giving back a block that is due: back in the pool, or the job has lost one. */
  lemma Frees(j: Job, v: nat, n: nat, pool: Pool, runs: map<nat, nat>, ok: bool, b: nat, pool': Pool,
              runs': map<nat, nat>, ok': bool, v': nat, n': nat)
    requires Progress(j, v, n, pool, runs, ok) && FreedTo(pool, runs, b, pool', runs', ok', j.lo, j.hi) &&
      b in JobKeys(j)
    requires v' <= |j.pages| && n' <= USER && Done(j, v', n') == Done(j, v, n) + {b}
    requires Whole(pool, runs, j.lo, j.hi) && Returned(j.pages, j.dir, j.runs, v, n, runs) ==>
      b in runs && Returned(j.pages, j.dir, j.runs, v', n', runs - {b})
    ensures Progress(j, v', n', pool', runs', ok && ok')
  {
    if Total(pool) == j.hi - j.lo {
      assert HeapSpec.HoleAbove(pool.frees, b) <==> HeapSpec.HoleAbove(j.pool.frees, b);
      if HeapSpec.HoleAbove(pool.frees, b) {
        WholeIsSteady(pool', runs', j.lo, j.hi);
        forall u {:trigger HeapSpec.HoleAbove(pool'.frees, u)} | u in runs'
          ensures HeapSpec.HoleAbove(pool'.frees, u) <==> HeapSpec.HoleAbove(j.pool.frees, u)
        {
          assert HeapSpec.HoleAbove(pool.frees, u) <==> HeapSpec.HoleAbove(j.pool.frees, u);
        }
      }
    }
  }

  /** Nothing to give back here. */
  lemma Skips(j: Job, v: nat, n: nat, pool: Pool, runs: map<nat, nat>, ok: bool, v': nat, n': nat)
    requires Progress(j, v, n, pool, runs, ok) && v' <= |j.pages| && n' <= USER && Done(j, v', n') == Done(j, v, n)
    requires Returned(j.pages, j.dir, j.runs, v, n, runs) ==> Returned(j.pages, j.dir, j.runs, v', n', runs)
    ensures Progress(j, v', n', pool, runs, ok)
  {}

  ghost predicate Serves(vm: Vm, j: Job)
    reads vm`mem
  {
    vm.lo == j.lo > 0 && |vm.mem| == j.hi && Framed(vm.mem)
  }

  method FreeBlock(vm: Vm, b: nat, ghost j: Job) returns (ok: bool)
    requires vm.Steady() && Serves(vm, j)
    modifies vm`runs, vm`pool
    ensures vm.Steady() && FreedTo(old(vm.pool), old(vm.runs), b, vm.pool, vm.runs, ok, j.lo, j.hi)
  {
    ok := vm.Pfree(b);
  }

  lemma TablesBeforeWithin(dir: seq<Word>, n: nat)
    requires n <= USER <= |dir|
    ensures TablesBefore(dir, n) <= TableFrames(dir)
  {
    forall f | f in TablesBefore(dir, n) ensures f in TableFrames(dir) {
      var pd :| 0 <= pd < n && dir[..n][pd] != ZERO && dir[..n][pd].frame == f;
      assert dir[pd] == dir[..n][pd];
    }
  }

  lemma HeadHeldNow(pages: seq<Word>, dir: seq<Word>, runs: map<nat, nat>, v: nat, n: nat, runs': map<nat, nat>)
    requires Returned(pages, dir, runs, v, n, runs') && v < |pages| && Head(pages[v])
    requires RunsGood(pages, runs) && HeadFrames(pages) !! TableFrames(dir) && TablesBefore(dir, n) <= TableFrames(dir)
    ensures pages[v].frame in runs'
  {
    HeadStillHeld(pages, runs, v);
    assert pages[v].frame in HeadFrames(pages);
  }

  /** The run that starts on page v is due. */
  lemma HeadDue(j: Job, v: nat, n: nat)
    requires JobGood(j) && v < USER_PAGES && n <= USER && Head(j.pages[v])
    ensures j.pages[v].frame in JobKeys(j) && Done(j, v + 1, n) == Done(j, v, n) + {j.pages[v].frame}
    ensures forall runs :: Returned(j.pages, j.dir, j.runs, v, n, runs) ==>
      j.pages[v].frame in runs && Returned(j.pages, j.dir, j.runs, v + 1, n, runs - {j.pages[v].frame})
  {
    HeadFramesSnoc(j.pages, v);
    TablesBeforeWithin(j.dir, n);
    forall runs | Returned(j.pages, j.dir, j.runs, v, n, runs)
      ensures j.pages[v].frame in runs && Returned(j.pages, j.dir, j.runs, v + 1, n, runs - {j.pages[v].frame})
    {
      HeadHeldNow(j.pages, j.dir, j.runs, v, n, runs);
      ReturnedPage(j.pages, j.dir, j.runs, v, n, runs);
    }
  }

  lemma PageSkipped(j: Job, v: nat, n: nat)
    requires JobGood(j) && v < USER_PAGES && n <= USER && !Head(j.pages[v])
    ensures Done(j, v + 1, n) == Done(j, v, n)
    ensures forall runs :: Returned(j.pages, j.dir, j.runs, v, n, runs) ==>
      Returned(j.pages, j.dir, j.runs, v + 1, n, runs)
  {
    HeadFramesSnoc(j.pages, v);
    forall runs | Returned(j.pages, j.dir, j.runs, v, n, runs)
      ensures Returned(j.pages, j.dir, j.runs, v + 1, n, runs)
    {
      ReturnedPage(j.pages, j.dir, j.runs, v, n, runs);
    }
  }

  method FreeEntry(vm: Vm, e: Word, ok0: bool, ghost j: Job, ghost v: nat, ghost n: nat) returns (ok: bool)
    requires vm.Steady() && Serves(vm, j) && v < USER_PAGES && Progress(j, v, n, vm.pool, vm.runs, ok0) &&
      e == j.pages[v]
    modifies vm`runs, vm`pool
    ensures vm.Steady() && Progress(j, v + 1, n, vm.pool, vm.runs, ok)
  {
    ghost var pool, runs := vm.pool, vm.runs;
    ok := ok0;
    if Present(e) && !Cont(e) {
      var freed := FreeBlock(vm, e.frame, j);
      HeadDue(j, v, n);
      Frees(j, v, n, pool, runs, ok0, e.frame, vm.pool, vm.runs, freed, v + 1, n);
      ok := ok0 && freed;
    } else {
      SkipPage(j, v, n, pool, runs, ok0);
    }
  }

  /** The inner loop of free_process_pages: every head in the table gives its run back. */
  method FreeTable(vm: Vm, page: Page, ok0: bool, ghost j: Job, ghost v: nat, ghost end: nat, ghost n: nat)
    returns (ok: bool)
    requires vm.Steady() && Serves(vm, j) && end == v + ENTRIES <= USER_PAGES && TableAt(j.pages, v, page) &&
      Progress(j, v, n, vm.pool, vm.runs, ok0)
    modifies vm`runs, vm`pool
    ensures vm.Steady() && Progress(j, end, n, vm.pool, vm.runs, ok)
  {
    ok := ok0;
    ghost var u := v;
    var pt := 0;
    while pt < ENTRIES
      invariant 0 <= pt <= ENTRIES && u == v + pt && vm.Steady() && Progress(j, u, n, vm.pool, vm.runs, ok)
    {
      EntryOf(j.pages, v, page, pt, u);
      ok := FreeEntry(vm, page[pt], ok, j, u, n);
      pt, u := pt + 1, u + 1;
    }
  }

  lemma EntryOf(pages: seq<Word>, v: nat, page: Page, pt: nat, u: nat)
    requires TableAt(pages, v, page) && pt < ENTRIES && u == v + pt
    ensures u < |pages| && page[pt] == pages[u]
  {}

  /** Directory entries before n are cleared, the others untouched. */
  ghost predicate DirCleared(dir: seq<Word>, dir': seq<Word>, n: nat)
  {
    |dir| == |dir'| == ENTRIES && forall pd :: 0 <= pd < ENTRIES ==> dir'[pd] == if pd < n then ZERO else dir[pd]
  }

  /** The pages behind table pd, as seen through the directory. */
  lemma TablePages(mem: seq<Page>, runs: map<nat, nat>, dir: seq<Word>, pd: nat)
    requires TablesGood(mem, runs, dir) && pd < USER
    ensures dir[pd] != ZERO ==> dir[pd].frame < |mem| && TableAt(PagesOf(mem, dir), pd * ENTRIES, mem[dir[pd].frame])
    ensures dir[pd] == ZERO ==> TableAt(PagesOf(mem, dir), pd * ENTRIES, ZeroPage())
  {
    var page, pages := if dir[pd] != ZERO then mem[dir[pd].frame] else ZeroPage(), PagesOf(mem, dir);
    forall j | 0 <= j < ENTRIES ensures page[j] == pages[pd * ENTRIES + j] { InTable(pd, j); }
  }

  lemma InTable(pd: nat, j: nat)
    requires pd < USER && j < ENTRIES
    ensures (pd * ENTRIES + j) / ENTRIES == pd && (pd * ENTRIES + j) % ENTRIES == j && pd * ENTRIES + j < USER_PAGES
  {}

  lemma SkipPage(j: Job, v: nat, n: nat, pool: Pool, runs: map<nat, nat>, ok: bool)
    requires Progress(j, v, n, pool, runs, ok) && v < USER_PAGES && !Head(j.pages[v])
    ensures Progress(j, v + 1, n, pool, runs, ok)
  {
    PageSkipped(j, v, n);
    Skips(j, v, n, pool, runs, ok, v + 1, n);
  }

  ghost predicate NoHeads(pages: seq<Word>, v: nat, end: nat)
  {
    forall u :: v <= u < end && u < |pages| ==> !Head(pages[u])
  }

  /** A table with no entries has nothing to free. */
  lemma {:induction false} SkipEmpty(j: Job, v: nat, end: nat, n: nat, pool: Pool, runs: map<nat, nat>, ok: bool)
    requires Progress(j, v, n, pool, runs, ok) && v <= end <= USER_PAGES && NoHeads(j.pages, v, end)
    ensures Progress(j, end, n, pool, runs, ok)
    decreases end - v
  {
    if v < end {
      SkipPage(j, v, n, pool, runs, ok);
      SkipEmpty(j, v + 1, end, n, pool, runs, ok);
    }
  }

  lemma ZeroTable(pages: seq<Word>, v: nat, end: nat)
    requires TableAt(pages, v, ZeroPage()) && end == v + ENTRIES
    ensures NoHeads(pages, v, end)
  {
    forall u | v <= u < end ensures !Head(pages[u]) { assert ZeroPage()[u - v] == pages[v + (u - v)]; }
  }

  lemma EmptyTable(j: Job, pd: nat, v: nat, end: nat, pool: Pool, runs: map<nat, nat>, ok: bool)
    requires Progress(j, v, pd, pool, runs, ok) && pd < USER && j.dir[pd] == ZERO && end == v + ENTRIES &&
      TableAt(j.pages, v, ZeroPage())
    ensures Progress(j, end, pd + 1, pool, runs, ok)
  {
    ZeroTable(j.pages, v, end);
    SkipEmpty(j, v, end, pd, pool, runs, ok);
    SkipEntry(j, end, pd, pool, runs, ok);
  }

  lemma SkipEntry(j: Job, v: nat, pd: nat, pool: Pool, runs: map<nat, nat>, ok: bool)
    requires Progress(j, v, pd, pool, runs, ok) && pd < USER && j.dir[pd] == ZERO
    ensures Progress(j, v, pd + 1, pool, runs, ok)
  {
    TablesSnoc(j.dir, pd);
    if Returned(j.pages, j.dir, j.runs, v, pd, runs) { ReturnedTable(j.pages, j.dir, j.runs, v, pd, runs); }
    Skips(j, v, pd, pool, runs, ok, v, pd + 1);
  }

  lemma TableHeldNow(mem: seq<Page>, runs: map<nat, nat>, dir: seq<Word>, pages: seq<Word>, v: nat, n: nat,
                     runs': map<nat, nat>)
    requires TablesGood(mem, runs, dir) && n < USER && dir[n] != ZERO && HeadFrames(pages) !! TableFrames(dir)
    requires Returned(pages, dir, runs, v, n, runs')
    ensures dir[n].frame in runs'
  {
    TableStillHeld(mem, runs, dir, n);
    assert HeadFrames(pages[..v]) <= HeadFrames(pages) by {
      assert pages == pages[..v] + pages[v..];
      HeadFramesConcat(pages[..v], pages[v..]);
    }
  }

  /** Table n is due once its pages are done. */
  lemma TableDue(mem: seq<Page>, j: Job, v: nat, n: nat)
    requires JobGood(j) && TablesGood(mem, j.runs, j.dir) && v <= USER_PAGES && n < USER && j.dir[n] != ZERO
    ensures j.dir[n].frame in JobKeys(j) && Done(j, v, n + 1) == Done(j, v, n) + {j.dir[n].frame}
    ensures forall runs :: Returned(j.pages, j.dir, j.runs, v, n, runs) ==>
      j.dir[n].frame in runs && Returned(j.pages, j.dir, j.runs, v, n + 1, runs - {j.dir[n].frame})
  {
    TablesSnoc(j.dir, n);
    forall runs | Returned(j.pages, j.dir, j.runs, v, n, runs)
      ensures j.dir[n].frame in runs && Returned(j.pages, j.dir, j.runs, v, n + 1, runs - {j.dir[n].frame})
    {
      TableHeldNow(mem, j.runs, j.dir, j.pages, v, n, runs);
      ReturnedTable(j.pages, j.dir, j.runs, v, n, runs);
    }
  }

  /** A table in use: its runs, then its own frame. */
  method FreeDirTable(vm: Vm, t: nat, ok0: bool, ghost pd: nat, ghost v: nat, ghost end: nat, ghost j: Job)
    returns (ok: bool)
    requires vm.Steady() && Serves(vm, j) && JobOn(vm.mem, j) && pd < USER && j.dir[pd] != ZERO &&
      t == j.dir[pd].frame < |vm.mem|
    requires end == v + ENTRIES <= USER_PAGES && TableAt(j.pages, v, vm.mem[t]) &&
      Progress(j, v, pd, vm.pool, vm.runs, ok0)
    modifies vm`runs, vm`pool
    ensures vm.Steady() && Progress(j, end, pd + 1, vm.pool, vm.runs, ok)
  {
    ok := FreeTable(vm, vm.mem[t], ok0, j, v, end, pd);
    ok := FreeFrame(vm, t, ok, end, pd, j);
  }

  method FreeFrame(vm: Vm, t: nat, ok0: bool, ghost v: nat, ghost pd: nat, ghost j: Job) returns (ok: bool)
    requires vm.Steady() && Serves(vm, j) && JobOn(vm.mem, j) && pd < USER && v <= USER_PAGES && j.dir[pd] != ZERO &&
      t == j.dir[pd].frame
    requires Progress(j, v, pd, vm.pool, vm.runs, ok0)
    modifies vm`runs, vm`pool
    ensures vm.Steady() && Progress(j, v, pd + 1, vm.pool, vm.runs, ok)
  {
    ghost var pool, runs := vm.pool, vm.runs;
    var freed := FreeBlock(vm, t, j);
    TableDue(vm.mem, j, v, pd);
    Frees(j, v, pd, pool, runs, ok0, t, vm.pool, vm.runs, freed, v, pd + 1);
    ok := ok0 && freed;
  }

  /** The job is to free the space of its directory, as mem has it. */
  ghost predicate JobOn(mem: seq<Page>, j: Job)
  {
    SpaceGood(mem, j.runs, j.dir) && j.pages == PagesOf(mem, j.dir)
  }

  /** One directory entry of free_process_pages: what hangs off it. */
  method FreeBehind(vm: Vm, e: Word, ok0: bool, ghost pd: nat, ghost v: nat, ghost end: nat, ghost j: Job)
    returns (ok: bool)
    requires vm.Steady() && Serves(vm, j) && JobOn(vm.mem, j) && pd < USER && e == j.dir[pd]
    requires v == 1024 * pd && end == v + ENTRIES && Progress(j, v, pd, vm.pool, vm.runs, ok0)
    modifies vm`runs, vm`pool
    ensures vm.Steady() && Progress(j, end, pd + 1, vm.pool, vm.runs, ok)
  {
    TablePagesAt(vm.mem, j, pd, v);
    if e == ZERO {
      EmptyTable(j, pd, v, end, vm.pool, vm.runs, ok0);
      ok := ok0;
    } else {
      if e.flags & PSE != 0 { assert false; }
      ok := FreeDirTable(vm, e.frame, ok0, pd, v, end, j);
    }
  }

  lemma TablePagesAt(mem: seq<Page>, j: Job, pd: nat, v: nat)
    requires JobOn(mem, j) && pd < USER && v == 1024 * pd
    ensures v + ENTRIES <= USER_PAGES
    ensures if j.dir[pd] == ZERO then TableAt(j.pages, v, ZeroPage())
      else j.dir[pd].flags & PSE == 0 && j.dir[pd].frame < |mem| && TableAt(j.pages, v, mem[j.dir[pd].frame])
  {
    TablePages(mem, j.runs, j.dir, pd);
  }

  /** The outer loop of free_process_pages. */
  method FreeAll(vm: Vm, dir: array<Word>, ghost j: Job) returns (ok: bool)
    requires vm.Steady() && Serves(vm, j) && JobOn(vm.mem, j) && dir.Length == ENTRIES && j.dir == dir[..]
    requires Progress(j, 0, 0, vm.pool, vm.runs, true)
    modifies vm`runs, vm`pool, dir
    ensures DirCleared(j.dir, dir[..], USER) && Progress(j, USER_PAGES, USER, vm.pool, vm.runs, ok)
  {
    ok := true;
    ghost var v := 0;
    var pd := 0;
    while pd < USER
      invariant 0 <= pd <= USER && v == 1024 * pd && vm.Steady() && DirCleared(j.dir, dir[..], pd)
      invariant Progress(j, v, pd, vm.pool, vm.runs, ok)
    {
      assert dir[pd] == dir[..][pd] == j.dir[pd];
      ghost var end := v + ENTRIES;
      ok := FreeBehind(vm, dir[pd], ok, pd, v, end, j);
      dir[pd] := ZERO;
      pd, v := pd + 1, end;
    }
  }

  /** free_process_pages. The pool is whole afterwards exactly if a hole lay above each run and table of the space;
      then each of them has gone back exactly once, and nothing else has. */
  method FreeProcessPages(vm: Vm, dir: array<Word>) returns (ok: bool)
    requires vm.Valid() && dir.Length == ENTRIES && SpaceGood(vm.mem, vm.runs, dir[..])
    modifies vm`runs, vm`pool, dir
    ensures DirCleared(old(dir[..]), dir[..], USER)
    ensures vm.Valid() <==> FreeAbove(old(vm.pool).frees, Keys(vm.mem, old(dir[..])))
    ensures vm.Valid() ==>
      ok && vm.runs == old(vm.runs) - Keys(vm.mem, old(dir[..])) && vm.pool.spares == old(vm.pool).spares
  {
    ghost var j := Job(PagesOf(vm.mem, dir[..]), dir[..], vm.runs, vm.pool, vm.lo, |vm.mem|);
    TablesHeld(vm.mem, vm.runs, dir[..]);
    WholeIsSteady(vm.pool, vm.runs, vm.lo, |vm.mem|);
    ProgressStart(j);
    ok := FreeAll(vm, dir, j);
    JobEnds(j, vm.pool, vm.runs, ok);
  }

  lemma JobEnds(j: Job, pool: Pool, runs: map<nat, nat>, ok: bool)
    requires Progress(j, USER_PAGES, USER, pool, runs, ok)
    ensures Whole(pool, runs, j.lo, j.hi) <==> FreeAbove(j.pool.frees, JobKeys(j))
    ensures Whole(pool, runs, j.lo, j.hi) ==> ok && runs == j.runs - JobKeys(j) && pool.spares == j.pool.spares
  {
    AllReturned(j.pages, j.dir);
    if Total(pool) < j.hi - j.lo { ShortIsBroken(pool, runs, j.lo, j.hi); }
  }

  lemma AllReturned(pages: seq<Word>, dir: seq<Word>)
    requires |pages| == USER_PAGES && |dir| == ENTRIES
    ensures pages[..USER_PAGES] == pages && TablesBefore(dir, USER) == TableFrames(dir)
  {
    var a := dir[..USER];
    forall f | f in TableFrames(dir) ensures f in TableFrames(a) {
      var pd :| 0 <= pd < USER && dir[pd] != ZERO && dir[pd].frame == f;
      assert a[pd] == dir[pd];
    }
    forall f | f in TableFrames(a) ensures f in TableFrames(dir) {
      var pd :| 0 <= pd < USER && a[pd] != ZERO && a[pd].frame == f;
      assert a[pd] == dir[pd];
    }
  }
}
