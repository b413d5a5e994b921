/** How a clone will go, told from the pool and the parent's tables before it starts: the requests that
    clone_process_pages of page.c makes, in order, and the pool at the one that cannot be met. */
module PageFates {
  import opened PageRuns
  import opened HeapSpec
  import opened PagePool
  import opened PageTables

  /** The pool after all requests, or at the first that fails: for a table, or for a run of pages. */
  datatype Fate = Through(pool: Pool) | NoTable(pool: Pool) | NoRun(pool: Pool)

  /** Present entries from pt on, without a gap. */
  ghost function RunLen(src: Page, pt: nat): (n: nat)
    requires pt < |src| && Present(src[pt])
    ensures 0 < n && pt + n <= |src|
    decreases |src| - pt
  {
    1 + if pt + 1 < |src| && Present(src[pt + 1]) then RunLen(src, pt + 1) else 0
  }

  lemma {:induction false} RunLenIs(src: Page, pt: nat, n: nat)
    requires 0 < n && pt + n <= |src| && (forall j :: pt <= j < pt + n ==> Present(src[j]))
    requires pt + n < |src| ==> !Present(src[pt + n])
    ensures RunLen(src, pt) == n
    decreases n
  {
    if n > 1 { RunLenIs(src, pt + 1, n - 1); }
  }

  /** The requests for one table's runs, from entry pt on. */
  ghost function TableFate(pool: Pool, src: Page, pt: nat): Fate
    requires pt <= |src|
    decreases |src| - pt
  {
    if pt == |src| then Through(pool)
    else if !Present(src[pt]) then TableFate(pool, src, pt + 1)
    else
      var n := RunLen(src, pt);
      var i := FirstFit(pool.frees, n);
      if i == |pool.frees| then NoRun(pool) else TableFate(PoolTaken(pool, i, n), src, pt + n)
  }

  /** The requests for the directory's tables and their runs, from entry pd on. */
  ghost function DirFate(pool: Pool, mem: seq<Page>, dir: seq<Word>, pd: nat): Fate
    requires pd <= USER <= |dir|
    decreases USER - pd
  {
    if pd == USER then Through(pool)
    else if dir[pd] == ZERO || dir[pd].frame >= |mem| then DirFate(pool, mem, dir, pd + 1)
    else
      var i := FirstFit(pool.frees, 1);
      if i == |pool.frees| then NoTable(pool)
      else
        var fate := TableFate(PoolTaken(pool, i, 1), mem[dir[pd].frame], 0);
        if fate.Through? then DirFate(fate.pool, mem, dir, pd + 1) else fate
  }

  // ---- one request at a time ----

  lemma PastAbsent(pool: Pool, src: Page, pt: nat, pt': nat)
    requires pt < |src| && !Present(src[pt]) && pt' == pt + 1
    ensures TableFate(pool, src, pt) == TableFate(pool, src, pt')
  {}

  lemma PastRun(pool: Pool, src: Page, pt: nat, n: nat, pt': nat)
    requires 0 < n && pt' == pt + n <= |src| && (forall j :: pt <= j < pt' ==> Present(src[j]))
    requires pt' < |src| ==> !Present(src[pt'])
    ensures var i := FirstFit(pool.frees, n);
      TableFate(pool, src, pt) ==
      if i == |pool.frees| then NoRun(pool) else TableFate(PoolTaken(pool, i, n), src, pt')
  {
    RunLenIs(src, pt, n);
  }

  lemma PastEmpty(pool: Pool, mem: seq<Page>, dir: seq<Word>, pd: nat, pd': nat)
    requires pd < USER <= |dir| && dir[pd] == ZERO && pd' == pd + 1
    ensures DirFate(pool, mem, dir, pd) == DirFate(pool, mem, dir, pd')
  {}

  lemma AtTable(pool: Pool, mem: seq<Page>, dir: seq<Word>, pd: nat, pd': nat)
    requires pd < USER <= |dir| && dir[pd] != ZERO && dir[pd].frame < |mem| && pd' == pd + 1
    ensures var i := FirstFit(pool.frees, 1);
      if i == |pool.frees| then DirFate(pool, mem, dir, pd) == NoTable(pool)
      else
        var fate := TableFate(PoolTaken(pool, i, 1), mem[dir[pd].frame], 0);
        DirFate(pool, mem, dir, pd) == if fate.Through? then DirFate(fate.pool, mem, dir, pd') else fate
  {}
}
