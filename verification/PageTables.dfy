/** The page tables behind a directory, and set_process_page of page.c. */
module PageTables {
  import opened PageRuns
  import opened PagePool

  const USER := 768                // PGDIR_KERNEL_START: directory entries that belong to the process
  const USER_PAGES := 786432       // USER * ENTRIES
  const PAGE := 4096               // BLOCK_SIZE

  const ZERO := Word(0, 0)

  function ZeroPage(): (p: Page)
    ensures |p| == ENTRIES && forall k :: 0 <= k < ENTRIES ==> p[k] == ZERO
  {
    seq(ENTRIES, k => ZERO)
  }

  // ---- what a directory maps ----

  /** The entry for page v, through the directory and the table in memory. */
  ghost function Pt(mem: seq<Page>, dir: seq<Word>, v: nat): Word
  {
    if v / ENTRIES < |dir| && dir[v / ENTRIES] != ZERO && dir[v / ENTRIES].frame < |mem| &&
    |mem[dir[v / ENTRIES].frame]| == ENTRIES
    then mem[dir[v / ENTRIES].frame][v % ENTRIES] else ZERO
  }

  ghost function PagesOf(mem: seq<Page>, dir: seq<Word>): (p: seq<Word>)
    ensures |p| == USER_PAGES && forall v :: 0 <= v < USER_PAGES ==> p[v] == Pt(mem, dir, v)
  {
    seq(USER_PAGES, v requires 0 <= v => Pt(mem, dir, v))
  }

  ghost predicate TableGood(e: Word, mem: seq<Page>, runs: map<nat, nat>)
  {
    e.flags & PSE == 0 && e.frame in runs && runs[e.frame] == 1 && e.frame < |mem|
  }

  /** Each directory entry in use names a table of its own, taken from the pool. */
  ghost predicate TablesGood(mem: seq<Page>, runs: map<nat, nat>, dir: seq<Word>)
  {
    && |dir| == ENTRIES && Framed(mem)
    && (forall pd :: 0 <= pd < USER && dir[pd] != ZERO ==> TableGood(dir[pd], mem, runs))
    && (forall pd, pd' :: 0 <= pd < pd' < USER && dir[pd] != ZERO && dir[pd'] != ZERO ==>
         dir[pd].frame != dir[pd'].frame)
  }

  ghost function TableFrames(dir: seq<Word>): set<nat>
  {
    set pd | 0 <= pd < USER && pd < |dir| && dir[pd] != ZERO :: dir[pd].frame
  }

  /** A process's address space: its tables and runs are its own. */
  ghost predicate SpaceGood(mem: seq<Page>, runs: map<nat, nat>, dir: seq<Word>)
  {
    TablesGood(mem, runs, dir) && RunsGood(PagesOf(mem, dir), runs) && HeadFrames(PagesOf(mem, dir)) !! TableFrames(dir)
  }

  /** Everything a space holds in the pool. */
  ghost function Keys(mem: seq<Page>, dir: seq<Word>): set<nat>
  {
    HeadFrames(PagesOf(mem, dir)) + TableFrames(dir)
  }

  /** Storing page as table t under entry pd changes just the 1024 pages it covers. */
  lemma TableStored(mem: seq<Page>, runs: map<nat, nat>, dir: seq<Word>, pd: nat, e: Word, page: Page, v: nat)
    requires TablesGood(mem, runs, dir) && pd < USER && e != ZERO && e.frame < |mem| && |page| == ENTRIES &&
      v < USER_PAGES
    requires if dir[pd] == ZERO then e.frame !in TableFrames(dir) else e.frame == dir[pd].frame
    ensures Pt(mem[e.frame := page], dir[pd := e], v) == if v / ENTRIES == pd then page[v % ENTRIES] else Pt(mem, dir,
      v)
  {
    var q := v / ENTRIES;
    if q != pd && dir[q] != ZERO { assert dir[q].frame in TableFrames(dir); }
  }

  lemma TableStoredGood(mem: seq<Page>, runs: map<nat, nat>, dir: seq<Word>, pd: nat, e: Word, page: Page,
                        runs': map<nat, nat>)
    requires TablesGood(mem, runs, dir) && pd < USER && e != ZERO && e.frame < |mem| && |page| == ENTRIES &&
      e.flags & PSE == 0
    requires if dir[pd] == ZERO then e.frame !in TableFrames(dir) else e.frame == dir[pd].frame
    requires e.frame in runs' && runs'[e.frame] == 1 && forall f :: f in runs ==> f in runs' && runs'[f] == runs[f]
    ensures TablesGood(mem[e.frame := page], runs', dir[pd := e]) &&
      TableFrames(dir[pd := e]) == TableFrames(dir) + {e.frame}
  {
    var dir' := dir[pd := e];
    forall q, q' | 0 <= q < q' < USER && dir'[q] != ZERO && dir'[q'] != ZERO ensures dir'[q].frame != dir'[q'].frame {
      if q == pd {
        assert dir[q'].frame in TableFrames(dir);
      } else if q' == pd {
        assert dir[q].frame in TableFrames(dir);
      }
    }
    forall f | f in TableFrames(dir) ensures f in TableFrames(dir') {
      var q :| 0 <= q < USER && dir[q] != ZERO && dir[q].frame == f;
      assert q != pd ==> dir'[q] == dir[q];
      assert dir'[pd].frame == e.frame;
    }
    assert dir'[pd].frame in TableFrames(dir');
  }

  // ---- set_process_page ----

  /** Entry for page k of a new mapping of the frames from base on. */
  function SetWord(base: nat, k: nat): Word
  {
    Word(base + k, if k == 0 then PRESENT | RW | US | HEAD else PRESENT | RW | US | CONT)
  }

  ghost function SetWords(base: nat, n: nat): (ws: seq<Word>)
    ensures |ws| == n && forall k :: 0 <= k < n ==> ws[k] == SetWord(base, k)
  {
    seq(n, k requires 0 <= k => SetWord(base, k))
  }

  lemma SetWordsRun(base: nat, n: nat)
    ensures IsRun(SetWords(base, n), base)
  {}

  /** What the pool holds now: what it held, the new run, and tables taken along the way. */
  ghost predicate Taken(held: set<nat>, base: nat, tables: set<nat>, held': set<nat>, tables': set<nat>)
  {
    held' == held + {base} + tables' && tables <= tables' && (tables' - tables) !! (held + {base}) && base !in tables'
  }

  lemma TakenStep(held: set<nat>, base: nat, tables: set<nat>, held': set<nat>, tables': set<nat>, t: nat, isNew: bool)
    requires Taken(held, base, tables, held', tables') && (if isNew then t !in held' else t in tables')
    ensures Taken(held, base, tables, if isNew then held' + {t} else held', tables' + {t})
  {
    if !isNew { assert tables' + {t} == tables'; }
  }

  /** Outside the tables nothing in memory changed, and nothing in the kernel's part of the directory. */
  ghost predicate Elsewhere(mem: seq<Page>, dir: seq<Word>, mem': seq<Page>, dir': seq<Word>, tables: set<nat>)
  {
    && |mem'| == |mem| && |dir| == |dir'|
    && (forall f :: 0 <= f < |mem| && f !in tables ==> mem'[f] == mem[f])
    && (forall pd :: USER <= pd < |dir| ==> dir'[pd] == dir[pd])
  }

  ghost predicate Extends(runs: map<nat, nat>, runs': map<nat, nat>)
  {
    forall f :: f in runs ==> f in runs' && runs'[f] == runs[f]
  }

  /** The first m pages of the mapping are there, every other page is as it was. */
  ghost predicate PagesSoFar(mem: seq<Page>, dir: seq<Word>, v: nat, base: nat, m: nat, mem': seq<Page>,
                             dir': seq<Word>)
  {
    forall u: nat {:trigger Pt(mem', dir', u)} :: u < USER_PAGES ==>
      Pt(mem', dir', u) == if v <= u < v + m then SetWord(base, u - v) else Pt(mem, dir, u)
  }

  /** The first m of the pages have been mapped: state before, run taken, state now. */
  ghost predicate Partial(mem: seq<Page>, runs: map<nat, nat>, dir: seq<Word>, lo: nat, v: nat, base: nat, n: nat,
                          m: nat, mem': seq<Page>, runs': map<nat, nat>, dir': seq<Word>)
  {
    && TablesGood(mem', runs', dir') && PoolGood(runs', lo, |mem'|) && PagesSoFar(mem, dir, v, base, m, mem', dir')
    && Extends(runs[base := n], runs') && Taken(runs.Keys, base, TableFrames(dir), runs'.Keys, TableFrames(dir'))
    && Elsewhere(mem, dir, mem', dir', TableFrames(dir'))
  }

  lemma TablesHeld(mem: seq<Page>, runs: map<nat, nat>, dir: seq<Word>)
    requires TablesGood(mem, runs, dir)
    ensures TableFrames(dir) <= runs.Keys
  {}

  lemma PartialStart(mem: seq<Page>, runs: map<nat, nat>, dir: seq<Word>, lo: nat, v: nat, base: nat, n: nat)
    requires TablesGood(mem, runs, dir) && PoolGood(runs[base := n], lo, |mem|) && base !in runs
    ensures Partial(mem, runs, dir, lo, v, base, n, 0, mem, runs[base := n], dir)
  {
    TablesHeld(mem, runs, dir);
  }

  /** What is stored for table pd: the words for pages m up to m + c of the mapping, the rest as it was. */
  ghost predicate Filled(page: Page, page': Page, from: nat, base: nat, m: nat, c: nat)
  {
    && |page| == ENTRIES && |page'| == ENTRIES && from + c <= ENTRIES
    && forall j :: 0 <= j < ENTRIES ==>
         page'[j] == if from <= j < from + c then SetWord(base, m + j - from) else page[j]
  }

  ghost predicate TableChoice(mem: seq<Page>, runs: map<nat, nat>, dir: seq<Word>, pd: nat, t: nat, page: Page,
                              runs': map<nat, nat>)
  {
    && pd < |dir| && t < |mem|
    && if dir[pd] == ZERO then t !in runs && runs' == runs[t := 1] && page == ZeroPage()
       else t == dir[pd].frame && runs' == runs && page == mem[t]
  }

  lemma PartialStep(mem0: seq<Page>, runs0: map<nat, nat>, dir0: seq<Word>, lo: nat, v: nat, base: nat, n: nat, m: nat,
                    mem: seq<Page>, runs: map<nat, nat>, dir: seq<Word>, pd: nat, from: nat, c: nat, t: nat,
                    page: Page, page': Page, runs': map<nat, nat>)
    requires Partial(mem0, runs0, dir0, lo, v, base, n, m, mem, runs, dir)
    requires pd < USER && v + m == pd * ENTRIES + from && TableChoice(mem, runs, dir, pd, t, page, runs') &&
      Filled(page, page', from, base, m, c)
    requires PoolGood(runs', lo, |mem|)
    ensures Partial(mem0, runs0, dir0, lo, v, base, n, m + c, mem[t := page'], runs',
      dir[pd := Word(t, PRESENT | RW | US)])
  {
    var e := Word(t, PRESENT | RW | US);
    TablesHeld(mem, runs, dir);
    assert dir[pd] != ZERO ==> dir[pd].frame in TableFrames(dir);
    TableStoredGood(mem, runs, dir, pd, e, page', runs');
    TakenStep(runs0.Keys, base, TableFrames(dir0), runs.Keys, TableFrames(dir), t, dir[pd] == ZERO);
    ElsewhereStep(mem0, dir0, mem, dir, TableFrames(dir), pd, e, page');
    StepPages(mem0, dir0, v, base, m, mem, runs, dir, pd, from, c, t, page, page', runs');
  }

  lemma StepPages(mem0: seq<Page>, dir0: seq<Word>, v: nat, base: nat, m: nat, mem: seq<Page>, runs: map<nat, nat>,
                  dir: seq<Word>, pd: nat, from: nat, c: nat, t: nat, page: Page, page': Page, runs': map<nat, nat>)
    requires TablesGood(mem, runs, dir) && PagesSoFar(mem0, dir0, v, base, m, mem, dir)
    requires pd < USER && v + m == pd * ENTRIES + from && TableChoice(mem, runs, dir, pd, t, page, runs') &&
      Filled(page, page', from, base, m, c)
    ensures PagesSoFar(mem0, dir0, v, base, m + c, mem[t := page'], dir[pd := Word(t, PRESENT | RW | US)])
  {
    var mem', dir' := mem[t := page'], dir[pd := Word(t, PRESENT | RW | US)];
    forall u: nat {:trigger Pt(mem', dir', u)} | u < USER_PAGES
      ensures Pt(mem', dir', u) == if v <= u < v + (m + c) then SetWord(base, u - v) else Pt(mem0, dir0, u)
    {
      StepPage(mem0, dir0, v, base, m, mem, runs, dir, pd, from, c, t, page, page', runs', u);
    }
  }

  lemma ElsewhereStep(mem0: seq<Page>, dir0: seq<Word>, mem: seq<Page>, dir: seq<Word>, tables: set<nat>, pd: nat,
                      e: Word, page: Page)
    requires Elsewhere(mem0, dir0, mem, dir, tables) && pd < USER && pd < |dir| && e.frame < |mem|
    ensures Elsewhere(mem0, dir0, mem[e.frame := page], dir[pd := e], tables + {e.frame})
  {}

  lemma StepPage(mem0: seq<Page>, dir0: seq<Word>, v: nat, base: nat, m: nat, mem: seq<Page>, runs: map<nat, nat>,
                 dir: seq<Word>, pd: nat, from: nat, c: nat, t: nat, page: Page, page': Page, runs': map<nat, nat>,
                 u: nat)
    requires TablesGood(mem, runs, dir) && PagesSoFar(mem0, dir0, v, base, m, mem, dir)
    requires pd < USER && v + m == pd * ENTRIES + from && TableChoice(mem, runs, dir, pd, t, page, runs') &&
      Filled(page, page', from, base, m, c)
    requires u < USER_PAGES
    ensures Pt(mem[t := page'], dir[pd := Word(t, PRESENT | RW | US)], u) ==
      if v <= u < v + m + c then SetWord(base, u - v) else Pt(mem0, dir0, u)
  {
    var e := Word(t, PRESENT | RW | US);
    TablesHeld(mem, runs, dir);
    TableStored(mem, runs, dir, pd, e, page', u);
    assert Pt(mem, dir, u) == if v <= u < v + m then SetWord(base, u - v) else Pt(mem0, dir0, u);
  }

  /** The inner loop of set_process_page. */
  method FillWords(page: Page, from: nat, base: nat, m: nat, c: nat) returns (page': Page)
    requires |page| == ENTRIES && from + c <= ENTRIES
    ensures Filled(page, page', from, base, m, c)
  {
    page' := page;
    var k := 0;
    while k < c
      invariant 0 <= k <= c && Filled(page, page', from, base, m, k)
    {
      page' := page'[from + k := SetWord(base, m + k)];
      k := k + 1;
    }
  }

  /** Directory entries from pd to last that have no table yet. */
  ghost function MissingTables(dir: seq<Word>, pd: nat, last: int): nat
    requires last < |dir|
    decreases last + 1 - pd
  {
    if pd > last then 0 else (if dir[pd] == ZERO then 1 else 0) + MissingTables(dir, pd + 1, last)
  }

  lemma {:induction false} MissingSame(dir: seq<Word>, dir': seq<Word>, pd: nat, last: int)
    requires last < |dir| == |dir'| && forall q :: pd <= q < |dir| ==> dir'[q] == dir[q]
    ensures MissingTables(dir', pd, last) == MissingTables(dir, pd, last)
    decreases last + 1 - pd
  {
    if pd <= last { MissingSame(dir, dir', pd + 1, last); }
  }

  lemma EnoughHere(dir: seq<Word>, pd: nat, last: int, spares: int)
    requires pd <= last < |dir| && spares >= MissingTables(dir, pd, last)
    ensures dir[pd] == ZERO ==> spares > 0
  {}

  lemma EnoughLater(dir: seq<Word>, dir': seq<Word>, pd: nat, last: int, spares: int, spares': int)
    requires pd <= last < |dir| == |dir'| && spares >= MissingTables(dir, pd, last) && dir' == dir[pd := dir'[pd]]
    requires spares' >= spares - (if dir[pd] == ZERO then 1 else 0)
    ensures spares' >= MissingTables(dir', pd + 1, last)
  {
    MissingSame(dir, dir', pd + 1, last);
  }

  lemma NextTable(v: nat, m: nat, pd: nat, from: nat, c: nat)
    requires v + m == pd * ENTRIES + from && c == ENTRIES - from
    ensures v + (m + c) == (pd + 1) * ENTRIES + 0
  {}

  /** The table for directory entry pd, taken from the pool and cleared if missing. */
  method TableFor(vm: Vm, dir: array<Word>, pd: nat) returns (t: nat, page: Page)
    requires vm.Valid() && dir.Length == ENTRIES && pd < USER && TablesGood(vm.mem, vm.runs, dir[..]) &&
      (dir[pd] == ZERO ==> vm.pool.spares > 0)
    modifies vm`runs, vm`pool
    ensures vm.Valid() && |page| == ENTRIES &&
      vm.pool.spares >= old(vm.pool).spares - (if dir[pd] == ZERO then 1 else 0)
    ensures t == 0 ==> vm.runs == old(vm.runs) && dir[pd] == ZERO
    ensures t != 0 ==> TableChoice(vm.mem, old(vm.runs), dir[..], pd, t, page, vm.runs)
  {
    if dir[pd] == ZERO {
      page := ZeroPage();
      t := vm.Palloc(1);
    } else {
      assert dir[..][pd] == dir[pd];
      t := dir[pd].frame;
      page := vm.mem[t];
    }
  }

  lemma RunsExtend(pages: seq<Word>, runs: map<nat, nat>, runs': map<nat, nat>)
    requires RunsGood(pages, runs) && Extends(runs, runs')
    ensures RunsGood(pages, runs')
  {
    forall h | 0 <= h < |pages| && Head(pages[h]) ensures HeadGood(pages, runs', h) { assert HeadGood(pages, runs, h); }
    forall v | 0 <= v < |pages| && Present(pages[v]) ensures Covered(pages, runs', v) {
      assert Covered(pages, runs, v);
      var h :| Covers(pages, runs, h, v);
      assert Covers(pages, runs', h, v);
    }
  }

  lemma HeadsHeld(pages: seq<Word>, runs: map<nat, nat>)
    requires RunsGood(pages, runs)
    ensures HeadFrames(pages) <= runs.Keys
  {
    forall f | f in HeadFrames(pages) ensures f in runs {
      var h :| 0 <= h < |pages| && Head(pages[h]) && pages[h].frame == f;
      assert HeadGood(pages, runs, h);
    }
  }

  /** The whole range is mapped to one new run: page v + k to frame base + k, HEAD on the first page only. */
  ghost predicate SetDone(mem: seq<Page>, runs: map<nat, nat>, dir: seq<Word>, v: nat, n: nat, base: nat,
                          mem': seq<Page>, runs': map<nat, nat>, dir': seq<Word>)
  {
    && v + n <= USER_PAGES && SpaceGood(mem', runs', dir')
    && PagesOf(mem', dir') == Mapped(PagesOf(mem, dir), v, SetWords(base, n))
    && Extends(runs, runs') && base in runs' && runs'[base] == n
    && runs'.Keys == runs.Keys + Keys(mem', dir') && (Keys(mem', dir') - Keys(mem, dir)) !! runs.Keys
    && Elsewhere(mem, dir, mem', dir', TableFrames(dir')) && (TableFrames(dir') - TableFrames(dir)) !! runs.Keys
  }

  lemma PartialDone(mem: seq<Page>, runs: map<nat, nat>, dir: seq<Word>, lo: nat, v: nat, base: nat, n: nat,
                    mem': seq<Page>, runs': map<nat, nat>, dir': seq<Word>)
    requires Partial(mem, runs, dir, lo, v, base, n, n, mem', runs', dir') && SpaceGood(mem, runs, dir) && n > 0 &&
      base !in runs
    requires Absent(PagesOf(mem, dir), v, n)
    ensures SetDone(mem, runs, dir, v, n, base, mem', runs', dir')
  {
    var pages, pages' := PagesOf(mem, dir), PagesOf(mem', dir');
    var ws := SetWords(base, n);
    SetWordsRun(base, n);
    SamePages(mem, dir, v, base, n, mem', dir');
    MapRunKeeps(pages, runs, v, ws, base);
    RunsExtend(pages', runs[base := n], runs');
    HeadsHeld(pages, runs);
    TablesHeld(mem, runs, dir);
    SetKeys(runs.Keys, base, TableFrames(dir), runs'.Keys, TableFrames(dir'), HeadFrames(pages));
    assert Extends(runs, runs');
  }

  lemma SamePages(mem: seq<Page>, dir: seq<Word>, v: nat, base: nat, n: nat, mem': seq<Page>, dir': seq<Word>)
    requires PagesSoFar(mem, dir, v, base, n, mem', dir') && v + n <= USER_PAGES
    ensures PagesOf(mem', dir') == Mapped(PagesOf(mem, dir), v, SetWords(base, n))
  {
    var p, q := PagesOf(mem', dir'), Mapped(PagesOf(mem, dir), v, SetWords(base, n));
    forall u | 0 <= u < USER_PAGES ensures p[u] == q[u] { assert p[u] == Pt(mem', dir', u); }
  }

  lemma SetKeys(held: set<nat>, base: nat, tables: set<nat>, held': set<nat>, tables': set<nat>, heads: set<nat>)
    requires Taken(held, base, tables, held', tables') && heads <= held && tables <= held && heads !! tables &&
      base !in held
    ensures (heads + {base}) !! tables' && held' == held + ((heads + {base}) + tables')
    ensures (((heads + {base}) + tables') - (heads + tables)) !! held && (tables' - tables) !! held
  {}

  /** get_need_blocks for a range that starts inside a page. */
  function NeedPages(start: nat, size: nat): nat
  {
    (start % PAGE + size + PAGE - 1) / PAGE
  }

  /** The outer loop's body: table pd gets as many of the remaining pages as fit. */
  method MapTable(vm: Vm, dir: array<Word>, pd: nat, from: nat, base: nat, m: nat, c: nat, ghost mem0: seq<Page>,
                  ghost runs0: map<nat, nat>, ghost dir0: seq<Word>, ghost v: nat, ghost n: nat) returns (ok: bool)
    requires vm.Valid() && dir.Length == ENTRIES && pd < USER && from + c <= ENTRIES && v + m == pd * ENTRIES + from
    requires Partial(mem0, runs0, dir0, vm.lo, v, base, n, m, vm.mem, vm.runs, dir[..]) &&
      (dir[pd] == ZERO ==> vm.pool.spares > 0)
    modifies vm`runs, vm`pool, vm`mem, dir
    ensures vm.Valid() && |vm.mem| == |old(vm.mem)| &&
      vm.pool.spares >= old(vm.pool).spares - (if old(dir[pd]) == ZERO then 1 else 0)
    ensures dir[..] == old(dir[..])[pd := dir[pd]]
    ensures Partial(mem0, runs0, dir0, vm.lo, v, base, n, if ok then m + c else m, vm.mem, vm.runs, dir[..])
  {
    ghost var mem, runs, d := vm.mem, vm.runs, dir[..];
    var t, page := TableFor(vm, dir, pd);
    if t == 0 { return false; }
    var page' := FillWords(page, from, base, m, c);
    PartialStep(mem0, runs0, dir0, vm.lo, v, base, n, m, mem, runs, d, pd, from, c, t, page, page', vm.runs);
    vm.mem := vm.mem[t := page'];
    dir[pd] := Word(t, PRESENT | RW | US);
    assert dir[..] == d[pd := Word(t, PRESENT | RW | US)];
    ok := true;
  }

  lemma InUser(v: nat, pd: nat, from: nat)
    requires v < USER_PAGES && v == pd * ENTRIES + from
    ensures pd < USER
  {}

  /** The directory entry that the last of n pages from v on falls under. */
  ghost function LastTable(v: nat, n: nat): (last: int)
    requires v + n <= USER_PAGES
    ensures last < USER
  {
    if n == 0 then -1 else (v + n - 1) / ENTRIES
  }

  lemma TableInRange(v: nat, n: nat, m: nat, pd: nat, from: nat)
    requires v + n <= USER_PAGES && m < n && v + m == pd * ENTRIES + from
    ensures pd <= LastTable(v, n)
  {}

  /** Page m of the mapping, if there is one, is entry from of table pd. */
  ghost predicate PageAt(v: nat, n: nat, m: nat, pd: nat, from: nat)
  {
    m <= n && from < ENTRIES && (m < n ==> v + m == pd * ENTRIES + from)
  }

  /** One turn of the outer loop of set_process_page. */
  method MapTurn(vm: Vm, dir: array<Word>, v: nat, n: nat, base: nat, m: nat, pd: nat, from: nat,
                 ghost mem0: seq<Page>, ghost runs0: map<nat, nat>, ghost dir0: seq<Word>,
                 ghost taken: nat) returns (ok: bool, m': nat)
    requires vm.Valid() && dir.Length == ENTRIES && v + n <= USER_PAGES && m < n && PageAt(v, n, m, pd, from)
    requires Partial(mem0, runs0, dir0, vm.lo, v, base, taken, m, vm.mem, vm.runs, dir[..])
    requires vm.pool.spares >= MissingTables(dir[..], pd, LastTable(v, n))
    modifies vm`runs, vm`pool, vm`mem, dir
    ensures vm.Valid() && m' <= n && Partial(mem0, runs0, dir0, vm.lo, v, base, taken, m', vm.mem, vm.runs, dir[..])
    ensures ok ==>
      m < m' && PageAt(v, n, m', pd + 1, 0) &&
      vm.pool.spares >= MissingTables(dir[..], pd + 1, LastTable(v, n))
  {
    InUser(v + m, pd, from);
    TableInRange(v, n, m, pd, from);
    ghost var d, spares := dir[..], vm.pool.spares;
    EnoughHere(d, pd, LastTable(v, n), spares);
    var c := n - m;
    if from + c > ENTRIES { c := ENTRIES - from; }
    ok := MapTable(vm, dir, pd, from, base, m, c, mem0, runs0, dir0, v, taken);
    m' := if ok then m + c else m;
    if ok { EnoughLater(d, dir[..], pd, LastTable(v, n), spares, vm.pool.spares); }
    if m + c < n { NextTable(v, m, pd, from, c); }
  }

  /** The outer loop of set_process_page. */
  method MapAll(vm: Vm, dir: array<Word>, v: nat, n: nat, base: nat, ghost mem0: seq<Page>, ghost runs0: map<nat, nat>,
                ghost dir0: seq<Word>, ghost taken: nat) returns (ok: bool, m: nat)
    requires vm.Valid() && dir.Length == ENTRIES && v + n <= USER_PAGES
    requires Partial(mem0, runs0, dir0, vm.lo, v, base, taken, 0, vm.mem, vm.runs, dir[..])
    requires vm.pool.spares >= MissingTables(dir[..], v / ENTRIES, LastTable(v, n))
    modifies vm`runs, vm`pool, vm`mem, dir
    ensures vm.Valid() && m <= n && (ok ==> m == n)
    ensures Partial(mem0, runs0, dir0, vm.lo, v, base, taken, m, vm.mem, vm.runs, dir[..])
  {
    m := 0;
    var pd: nat, from: nat := v / ENTRIES, v % ENTRIES;
    while m < n
      invariant m <= n && vm.Valid() && PageAt(v, n, m, pd, from)
      invariant Partial(mem0, runs0, dir0, vm.lo, v, base, taken, m, vm.mem, vm.runs, dir[..])
      invariant vm.pool.spares >= MissingTables(dir[..], pd, LastTable(v, n))
    {
      ok, m := MapTurn(vm, dir, v, n, base, m, pd, from, mem0, runs0, dir0, taken);
      if !ok { return; }
      pd, from := pd + 1, 0;
    }
    ok := true;
  }

  /** set_process_page. The demands: the range is not mapped yet, and there is a descriptor for the run and for each
      new table. */
  method SetProcessPage(vm: Vm, dir: array<Word>, start: nat, size: nat) returns (ok: bool, base: nat, ghost m: nat)
    requires vm.Valid() && dir.Length == ENTRIES && SpaceGood(vm.mem, vm.runs, dir[..])
    requires Absent(PagesOf(vm.mem, dir[..]), start / PAGE, NeedPages(start, size))
    requires var v, n := start / PAGE, NeedPages(start, size);
      vm.pool.spares > MissingTables(dir[..], v / ENTRIES, LastTable(v, n))
    modifies vm`runs, vm`pool, vm`mem, dir
    ensures vm.Valid()
    ensures base == 0 ==> !ok && vm.mem == old(vm.mem) && vm.runs == old(vm.runs) && dir[..] == old(dir[..])
    ensures base != 0 ==>
      base !in old(vm.runs) && Partial(old(vm.mem), old(vm.runs), old(dir[..]), vm.lo, start / PAGE, base,
      if NeedPages(start, size) == 0 then 1 else NeedPages(start, size), m, vm.mem, vm.runs, dir[..])
    ensures ok ==> m == NeedPages(start, size)
    ensures ok && m > 0 ==>
      SetDone(old(vm.mem), old(vm.runs), old(dir[..]), start / PAGE, m, base, vm.mem, vm.runs, dir[..])
  {
    ghost var mem0, runs0, dir0 := vm.mem, vm.runs, dir[..];
    var v, n := start / PAGE, NeedPages(start, size);
    ghost var taken := if n == 0 then 1 else n;
    base := vm.Palloc(n);
    if base == 0 { return false, 0, 0; }
    PartialStart(mem0, runs0, dir0, vm.lo, v, base, taken);
    ok, m := MapAll(vm, dir, v, n, base, mem0, runs0, dir0, taken);
    if ok && n > 0 { PartialDone(mem0, runs0, dir0, vm.lo, v, base, n, vm.mem, vm.runs, dir[..]); }
  }
}
