/** clone_process_pages of page.c. */
module PageClone {
  import opened PageRuns
  import opened PagePool
  import opened PageTables
  import HeapSpec
  import opened PageFates
  import opened PageSpaces

  // ---- what a clone is ----

  const OWNERSHIP: bv12 := HEAD | CONT

  /** The child's entry for page k of a run copied to the frames from base on. */
  function CloneWord(w: Word, base: nat, k: nat): Word
  {
    Word(base + k, (w.flags & !OWNERSHIP) | (if k == 0 then HEAD else CONT))
  }

  /** Same access bits; the HEAD and CONT marks are the pool's business. */
  ghost predicate SameAccess(a: Word, b: Word) { a.flags & !OWNERSHIP == b.flags & !OWNERSHIP }

  /** Child entry c maps a copy of what parent entry p maps. */
  ghost predicate Copied(mem0: seq<Page>, p: Word, mem: seq<Page>, c: Word)
  {
    if Present(p) then Present(c) && SameAccess(p, c) && p.frame < |mem0| && c.frame < |mem| &&
    mem[c.frame] == mem0[p.frame]
    else c == ZERO
  }

  lemma CloneWordCopies(w: Word, base: nat, k: nat)
    requires Present(w)
    ensures InPlace(CloneWord(w, base, k), base, k) && SameAccess(w, CloneWord(w, base, k))
  {}

  /** Frame f belongs to an allocated run. */
  ghost predicate Held(runs: map<nat, nat>, f: nat) { !FreeRange(runs, f, 1) }

  /** Runs are only added, and no frame held before is written. */
  ghost predicate Grows(mem: seq<Page>, runs: map<nat, nat>, mem': seq<Page>, runs': map<nat, nat>)
  {
    && |mem'| == |mem| && Framed(mem') && Extends(runs, runs')
    && forall f: nat :: f < |mem| && Held(runs, f) ==> mem'[f] == mem[f]
  }

  lemma HeldStays(runs: map<nat, nat>, runs': map<nat, nat>, f: nat)
    requires Extends(runs, runs') && Held(runs, f)
    ensures Held(runs', f)
  {
    var r: nat :| r in runs && !(r + runs[r] <= f || f + 1 <= r);
    assert r in runs';
  }

  lemma GrowsTwice(a: seq<Page>, r: map<nat, nat>, b: seq<Page>, s: map<nat, nat>, c: seq<Page>, t: map<nat, nat>)
    requires Grows(a, r, b, s) && Grows(b, s, c, t)
    ensures Grows(a, r, c, t)
  {
    forall f: nat | f < |a| && Held(r, f) ensures c[f] == a[f] { HeldStays(r, s, f); }
  }

  lemma PageHeld(pages: seq<Word>, runs: map<nat, nat>, lo: nat, hi: nat, v: nat)
    requires RunsGood(pages, runs) && PoolGood(runs, lo, hi) && v < |pages| && Present(pages[v])
    ensures Held(runs, pages[v].frame) && pages[v].frame < hi
  {
    assert Covered(pages, runs, v);
    var h :| Covers(pages, runs, h, v);
    InRun(pages, runs, h, v);
    var b := pages[h].frame;
    assert b in runs && !(b + runs[b] <= pages[v].frame || pages[v].frame + 1 <= b);
  }

  /** A space keeps its tables and pages when memory and pool grow around it. */
  lemma SpaceStays(mem: seq<Page>, runs: map<nat, nat>, dir: seq<Word>, mem': seq<Page>, runs': map<nat, nat>)
    requires TablesGood(mem, runs, dir) && Grows(mem, runs, mem', runs')
    ensures TablesGood(mem', runs', dir) && PagesOf(mem', dir) == PagesOf(mem, dir)
    ensures forall pd :: 0 <= pd < USER && dir[pd] != ZERO ==> mem'[dir[pd].frame] == mem[dir[pd].frame]
  {
    forall pd | 0 <= pd < USER && dir[pd] != ZERO
      ensures mem'[dir[pd].frame] == mem[dir[pd].frame] && TableGood(dir[pd], mem', runs')
    {
      assert TableGood(dir[pd], mem, runs);
      var t := dir[pd].frame;
      assert t in runs && !(t + runs[t] <= t || t + 1 <= t);
    }
    var p, q := PagesOf(mem', dir), PagesOf(mem, dir);
    forall v | 0 <= v < USER_PAGES ensures p[v] == q[v] { assert p[v] == Pt(mem', dir, v) && q[v] == Pt(mem, dir, v); }
  }

  // ---- the loop invariant ----

  /** The child's pages up to v are copies of the parent's; what the child holds is new. */
  ghost predicate Cloning(mem0: seq<Page>, runs0: map<nat, nat>, parent: seq<Word>, lo: nat, mem: seq<Page>,
                          runs: map<nat, nat>, child: seq<Word>, v: nat, tables: set<nat>)
  {
    CloneState(mem0, runs0, lo, mem, runs, child, tables) && ClonePages(mem0, parent, mem, child, v)
  }

  ghost predicate CloneState(mem0: seq<Page>, runs0: map<nat, nat>, lo: nat, mem: seq<Page>, runs: map<nat, nat>,
                             child: seq<Word>, tables: set<nat>)
  {
    && Grows(mem0, runs0, mem, runs) && PoolGood(runs, lo, |mem|) && RunsGood(child, runs)
    && NewKeys(runs0.Keys, runs.Keys, HeadFrames(child), tables)
  }

  ghost predicate ClonePages(mem0: seq<Page>, parent: seq<Word>, mem: seq<Page>, child: seq<Word>, v: nat)
  {
    && |parent| == |child| == USER_PAGES && v <= USER_PAGES
    && (forall u :: 0 <= u < v ==> Copied(mem0, parent[u], mem, child[u]))
    && (forall u :: v <= u < USER_PAGES ==> child[u] == ZERO)
  }

  ghost predicate NewKeys(held: set<nat>, held': set<nat>, heads: set<nat>, tables: set<nat>)
  {
    held' == held + heads + tables && heads !! held && tables !! held && heads !! tables
  }

  lemma NewHead(held: set<nat>, held': set<nat>, heads: set<nat>, tables: set<nat>, b: nat)
    requires NewKeys(held, held', heads, tables) && b !in held'
    ensures NewKeys(held, held' + {b}, heads + {b}, tables) && NewKeys(held, held' + {b}, heads, tables + {b})
  {}

  lemma CloningStart(mem: seq<Page>, runs: map<nat, nat>, parent: seq<Word>, lo: nat, child: seq<Word>)
    requires |parent| == |child| == USER_PAGES && PoolGood(runs, lo, |mem|) && Framed(mem) &&
      (forall u :: 0 <= u < USER_PAGES ==> child[u] == ZERO)
    ensures Cloning(mem, runs, parent, lo, mem, runs, child, 0, {})
  {
    assert forall h :: 0 <= h < |child| ==> !Present(child[h]);
    assert HeadFrames(child) == {};
  }

  lemma CloningAbsent(mem0: seq<Page>, runs0: map<nat, nat>, parent: seq<Word>, lo: nat, mem: seq<Page>,
                      runs: map<nat, nat>, child: seq<Word>, v: nat, tables: set<nat>)
    requires Cloning(mem0, runs0, parent, lo, mem, runs, child, v, tables) && v < USER_PAGES && !Present(parent[v])
    ensures Cloning(mem0, runs0, parent, lo, mem, runs, child, v + 1, tables)
  {}

  /** What frame f holds once parent pages v up to v + n are copied to the frames from base on. */
  ghost function FrameAfter(mem: seq<Page>, parent: seq<Word>, v: nat, n: nat, base: nat, f: nat): Page
    requires v + n <= |parent| && f < |mem|
  {
    if base <= f < base + n && parent[v + f - base].frame < |mem| then mem[parent[v + f - base].frame] else mem[f]
  }

  ghost predicate RunCopied(mem: seq<Page>, parent: seq<Word>, v: nat, n: nat, base: nat, mem': seq<Page>)
  {
    && |mem'| == |mem| && v + n <= |parent| && base + n <= |mem|
    && forall f: nat {:trigger mem'[f]} :: f < |mem| ==> mem'[f] == FrameAfter(mem, parent, v, n, base, f)
  }

  ghost function CloneWords(parent: seq<Word>, v: nat, n: nat, base: nat): (ws: seq<Word>)
    requires v + n <= |parent|
    ensures |ws| == n && forall k :: 0 <= k < n ==> ws[k] == CloneWord(parent[v + k], base, k)
  {
    seq(n, k requires 0 <= k < n => CloneWord(parent[v + k], base, k))
  }

  lemma CloneWordsRun(parent: seq<Word>, v: nat, n: nat, base: nat)
    requires v + n <= |parent| && forall j :: v <= j < v + n ==> Present(parent[j])
    ensures IsRun(CloneWords(parent, v, n, base), base)
  {
    var ws := CloneWords(parent, v, n, base);
    forall k | 0 <= k < n ensures InPlace(ws[k], base, k) { CloneWordCopies(parent[v + k], base, k); }
  }

  lemma FreshNotHeld(runs: map<nat, nat>, base: nat, n: nat, f: nat)
    requires FreeRange(runs, base, n) && base <= f < base + n
    ensures !Held(runs, f)
  {}

  lemma GrowsByRun(mem: seq<Page>, runs: map<nat, nat>, parent: seq<Word>, v: nat, n: nat, base: nat, mem': seq<Page>)
    requires Framed(mem) && RunCopied(mem, parent, v, n, base, mem') && FreeRange(runs, base, n) && n > 0 &&
      base !in runs
    ensures Grows(mem, runs, mem', runs[base := n])
  {
    forall f: nat | f < |mem| && Held(runs, f) ensures mem'[f] == mem[f] {
      if base <= f < base + n { FreshNotHeld(runs, base, n, f); }
    }
  }

  lemma CloningRun(mem0: seq<Page>, runs0: map<nat, nat>, parent: seq<Word>, lo: nat, mem: seq<Page>,
                   runs: map<nat, nat>, child: seq<Word>, v: nat, tables: set<nat>, n: nat, base: nat, mem': seq<Page>)
    requires Cloning(mem0, runs0, parent, lo, mem, runs, child, v, tables) && v + n <= USER_PAGES && n > 0
    requires RunsGood(parent, runs0) && PoolGood(runs0, lo, |mem0|) &&
      (forall j :: v <= j < v + n ==> Present(parent[j]))
    requires base !in runs && FreeRange(runs, base, n) && PoolGood(runs[base := n], lo, |mem|) &&
      RunCopied(mem, parent, v, n, base, mem')
    ensures Cloning(mem0, runs0, parent, lo, mem', runs[base := n], Mapped(child, v, CloneWords(parent, v, n, base)),
      v + n, tables)
  {
    StateRun(mem0, runs0, parent, lo, mem, runs, child, v, tables, n, base, mem');
    AllCopied(mem0, runs0, parent, lo, mem, runs, child, v, n, base, mem', CloneWords(parent, v, n, base));
  }

  lemma StateRun(mem0: seq<Page>, runs0: map<nat, nat>, parent: seq<Word>, lo: nat, mem: seq<Page>,
                 runs: map<nat, nat>, child: seq<Word>, v: nat, tables: set<nat>, n: nat, base: nat, mem': seq<Page>)
    requires CloneState(mem0, runs0, lo, mem, runs, child, tables) && n > 0 && v + n <= |parent| == |child|
    requires (forall j :: v <= j < v + n ==> Present(parent[j])) && forall u :: v <= u < v + n ==> child[u] == ZERO
    requires base !in runs && FreeRange(runs, base, n) && PoolGood(runs[base := n], lo, |mem|) &&
      RunCopied(mem, parent, v, n, base, mem')
    ensures CloneState(mem0, runs0, lo, mem', runs[base := n], Mapped(child, v, CloneWords(parent, v, n, base)), tables)
    ensures Grows(mem, runs, mem', runs[base := n])
  {
    var ws := CloneWords(parent, v, n, base);
    CloneWordsRun(parent, v, n, base);
    MapRunKeeps(child, runs, v, ws, base);
    GrowsByRun(mem, runs, parent, v, n, base, mem');
    GrowsTwice(mem0, runs0, mem, runs, mem', runs[base := n]);
    NewHead(runs0.Keys, runs.Keys, HeadFrames(child), tables, base);
  }

  lemma AllCopied(mem0: seq<Page>, runs0: map<nat, nat>, parent: seq<Word>, lo: nat, mem: seq<Page>,
                  runs: map<nat, nat>, child: seq<Word>, v: nat, n: nat, base: nat, mem': seq<Page>, ws: seq<Word>)
    requires |parent| == |child| && v + n <= |parent| && RunsGood(child, runs) && PoolGood(runs, lo, |mem|) &&
      Grows(mem, runs, mem', runs[base := n])
    requires Grows(mem0, runs0, mem, runs) && RunsGood(parent, runs0) && PoolGood(runs0, lo, |mem0|) &&
      RunCopied(mem, parent, v, n, base, mem')
    requires ws == CloneWords(parent, v, n, base) && forall j :: v <= j < v + n ==> Present(parent[j])
    requires forall u :: 0 <= u < v ==> Copied(mem0, parent[u], mem, child[u])
    requires |parent| == USER_PAGES && forall u :: v <= u < USER_PAGES ==> child[u] == ZERO
    ensures ClonePages(mem0, parent, mem', Mapped(child, v, ws), v + n)
  {
    var child' := Mapped(child, v, ws);
    forall u | 0 <= u < v + n ensures Copied(mem0, parent[u], mem', child'[u]) {
      if u < v {
        CopyStays(mem0, parent[u], mem, runs, child, lo, u, mem', runs[base := n]);
      } else {
        CopyMade(mem0, runs0, parent, lo, mem, runs, v, n, base, mem', u - v);
      }
    }
  }

  lemma CopyStays(mem0: seq<Page>, p: Word, mem: seq<Page>, runs: map<nat, nat>, child: seq<Word>, lo: nat, u: nat,
                  mem': seq<Page>, runs': map<nat, nat>)
    requires RunsGood(child, runs) && PoolGood(runs, lo, |mem|) && u < |child| && Copied(mem0, p, mem, child[u]) &&
      Grows(mem, runs, mem', runs')
    ensures Copied(mem0, p, mem', child[u])
  {
    if Present(p) { PageHeld(child, runs, lo, |mem|, u); }
  }

  lemma CopyMade(mem0: seq<Page>, runs0: map<nat, nat>, parent: seq<Word>, lo: nat, mem: seq<Page>,
                 runs: map<nat, nat>, v: nat, n: nat, base: nat, mem': seq<Page>, k: nat)
    requires Grows(mem0, runs0, mem, runs) && RunsGood(parent, runs0) && PoolGood(runs0, lo, |mem0|) &&
      RunCopied(mem, parent, v, n, base, mem')
    requires k < n && Present(parent[v + k])
    ensures Copied(mem0, parent[v + k], mem', CloneWord(parent[v + k], base, k))
  {
    CloneWordCopies(parent[v + k], base, k);
    PageHeld(parent, runs0, lo, |mem0|, v + k);
    assert mem'[base + k] == FrameAfter(mem, parent, v, n, base, base + k);
  }

  // ---- tables ----

  /** A frame taken for a table. */
  lemma CloningTable(mem0: seq<Page>, runs0: map<nat, nat>, parent: seq<Word>, lo: nat, mem: seq<Page>,
                     runs: map<nat, nat>, child: seq<Word>, v: nat, tables: set<nat>, t: nat)
    requires Cloning(mem0, runs0, parent, lo, mem, runs, child, v, tables) && t !in runs &&
      PoolGood(runs[t := 1], lo, |mem|)
    ensures Cloning(mem0, runs0, parent, lo, mem, runs[t := 1], child, v, tables + {t}) &&
      Grows(mem, runs, mem, runs[t := 1])
  {
    NewHead(runs0.Keys, runs.Keys, HeadFrames(child), tables, t);
    RunsExtend(child, runs, runs[t := 1]);
  }

  /** A page's frame is in a data run, never a table's frame. */
  lemma NotTable(child: seq<Word>, runs: map<nat, nat>, lo: nat, hi: nat, u: nat, t: nat)
    requires RunsGood(child, runs) && PoolGood(runs, lo, hi) && u < |child| && Present(child[u]) && t in runs &&
      t !in HeadFrames(child)
    ensures child[u].frame != t
  {
    assert Covered(child, runs, u);
    var h :| Covers(child, runs, h, u);
    InRun(child, runs, h, u);
    assert child[h].frame in HeadFrames(child);
  }

  lemma TableNotHeld(runs0: map<nat, nat>, runs: map<nat, nat>, lo: nat, hi: nat, t: nat)
    requires Extends(runs0, runs) && PoolGood(runs, lo, hi) && t in runs && t !in runs0
    ensures !Held(runs0, t)
  {
    forall r | r in runs0 ensures r + runs0[r] <= t || t + 1 <= r { assert r in runs; }
  }

  /** Writing a table of the child touches neither the parent nor any copy. */
  lemma CloningStore(mem0: seq<Page>, runs0: map<nat, nat>, parent: seq<Word>, lo: nat, mem: seq<Page>,
                     runs: map<nat, nat>, child: seq<Word>, v: nat, tables: set<nat>, t: nat, page: Page)
    requires Cloning(mem0, runs0, parent, lo, mem, runs, child, v, tables) && t in tables && t < |mem| &&
      |page| == ENTRIES
    ensures Cloning(mem0, runs0, parent, lo, mem[t := page], runs, child, v, tables)
  {
    StoreState(mem0, runs0, lo, mem, runs, child, tables, t, page);
    StorePages(mem0, parent, lo, mem, runs, child, v, t, page);
  }

  lemma StoreState(mem0: seq<Page>, runs0: map<nat, nat>, lo: nat, mem: seq<Page>, runs: map<nat, nat>,
                   child: seq<Word>, tables: set<nat>, t: nat, page: Page)
    requires CloneState(mem0, runs0, lo, mem, runs, child, tables) && t in tables && t < |mem| && |page| == ENTRIES
    ensures CloneState(mem0, runs0, lo, mem[t := page], runs, child, tables)
  {
    TableNotHeld(runs0, runs, lo, |mem|, t);
  }

  lemma StorePages(mem0: seq<Page>, parent: seq<Word>, lo: nat, mem: seq<Page>, runs: map<nat, nat>, child: seq<Word>,
                   v: nat, t: nat, page: Page)
    requires ClonePages(mem0, parent, mem, child, v) && RunsGood(child, runs) && PoolGood(runs, lo, |mem|)
    requires t in runs && t !in HeadFrames(child) && t < |mem|
    ensures ClonePages(mem0, parent, mem[t := page], child, v)
  {
    forall u | 0 <= u < v ensures Copied(mem0, parent[u], mem[t := page], child[u]) {
      StoreCopy(mem0, parent[u], lo, mem, runs, child, u, t, page);
    }
  }

  lemma StoreCopy(mem0: seq<Page>, p: Word, lo: nat, mem: seq<Page>, runs: map<nat, nat>, child: seq<Word>, u: nat,
                  t: nat, page: Page)
    requires u < |child| && Copied(mem0, p, mem, child[u]) && RunsGood(child, runs) && PoolGood(runs, lo, |mem|)
    requires t in runs && t !in HeadFrames(child) && t < |mem|
    ensures Copied(mem0, p, mem[t := page], child[u])
  {
    if Present(p) { NotTable(child, runs, lo, |mem|, u, t); }
  }

  lemma {:induction false} CloningEmpty(mem0: seq<Page>, runs0: map<nat, nat>, parent: seq<Word>, lo: nat,
                                        mem: seq<Page>, runs: map<nat, nat>, child: seq<Word>, v: nat,
                                        tables: set<nat>, end: nat)
    requires Cloning(mem0, runs0, parent, lo, mem, runs, child, v, tables) && v <= end <= USER_PAGES &&
      NonePresent(parent, v, end)
    ensures Cloning(mem0, runs0, parent, lo, mem, runs, child, end, tables)
    decreases end - v
  {
    if v < end {
      CloningAbsent(mem0, runs0, parent, lo, mem, runs, child, v, tables);
      CloningEmpty(mem0, runs0, parent, lo, mem, runs, child, v + 1, tables, end);
    }
  }

  ghost predicate NonePresent(parent: seq<Word>, v: nat, end: nat)
  {
    forall u :: v <= u < end && u < |parent| ==> !Present(parent[u])
  }

  // ---- the code ----

  /** The n entries from pt on are present, and no more after them. */
  ghost predicate IsRunOf(src: Page, pt: nat, n: nat)
  {
    && |src| == ENTRIES && 0 < n && pt + n <= ENTRIES && (forall j :: pt <= j < pt + n ==> Present(src[j]))
    && (pt + n < ENTRIES ==> !Present(src[pt + n]))
  }

  /** A run of present entries starts at j. */
  ghost predicate StartsAt(src: Page, j: nat)
    requires j < |src|
  {
    Present(src[j]) && (j == 0 || !Present(src[j - 1]))
  }

  /** Runs of present entries that start at pt or later: the pallocs still to come for this table. */
  ghost function Starts(src: Page, pt: nat): nat
    requires pt <= |src|
    decreases |src| - pt
  {
    if pt == |src| then 0 else (if StartsAt(src, pt) then 1 else 0) + Starts(src, pt + 1)
  }

  lemma {:induction false} NoStartInside(src: Page, pt: nat, end: nat)
    requires 0 < pt <= end <= |src| && Present(src[pt - 1]) && forall j :: pt <= j < end ==> Present(src[j])
    ensures Starts(src, pt) == Starts(src, end)
    decreases end - pt
  {
    if pt < end { NoStartInside(src, pt + 1, end); }
  }

  lemma RunTaken(src: Page, pt: nat, n: nat)
    requires IsRunOf(src, pt, n) && (pt == 0 || !Present(src[pt - 1]))
    ensures Starts(src, pt) == 1 + Starts(src, pt + n)
  {
    NoStartInside(src, pt + 1, pt + n);
  }

  /** pt is not inside a run. */
  ghost predicate Between(src: Page, pt: nat)
  {
    pt == 0 || pt >= |src| || !Present(src[pt - 1]) || !Present(src[pt])
  }

  /** There are descriptors for the runs from pt on, and for rest more. */
  ghost predicate Affords(src: Page, pt: nat, rest: int, spares: int)
  {
    pt <= |src| && Between(src, pt) && rest >= 0 && spares >= rest + Starts(src, pt)
  }

  lemma AffordsOne(src: Page, pt: nat, rest: int, spares: int)
    requires Affords(src, pt, rest, spares) && pt < |src| && Present(src[pt])
    ensures spares > 0
  {}

  lemma AffordsPast(src: Page, pt: nat, pt': nat, rest: int, spares: int)
    requires Affords(src, pt, rest, spares) && pt < |src| && !Present(src[pt]) && pt' == pt + 1
    ensures Affords(src, pt', rest, spares)
  {}

  lemma AffordsAfter(src: Page, pt: nat, n: nat, pt': nat, rest: int, spares: int, spares': int)
    requires Affords(src, pt, rest, spares) && IsRunOf(src, pt, n) && pt' == pt + n && spares' >= spares - 1
    ensures Affords(src, pt', rest, spares')
  {
    RunTaken(src, pt, n);
  }

  /** How many present entries follow one another from pt on. */
  method RunLength(src: Page, pt: nat) returns (n: nat)
    requires |src| == ENTRIES && pt < ENTRIES && Present(src[pt])
    ensures IsRunOf(src, pt, n)
  {
    n := 1;
    while pt + n < ENTRIES && Present(src[pt + n])
      invariant 0 < n && pt + n <= ENTRIES && forall j :: pt <= j < pt + n ==> Present(src[j])
    {
      n := n + 1;
    }
  }

  /** The frames of a run, copied one by one. */
  method CopyFrames(vm: Vm, src: Page, pt: nat, n: nat, base: nat, ghost parent: seq<Word>, ghost v0: nat, ghost u: nat)
    requires TableAt(parent, v0, src) && u == v0 + pt && Copyable(src, pt, n, base, |vm.mem|)
    modifies vm`mem
    ensures RunCopied(old(vm.mem), parent, u, n, base, vm.mem)
  {
    ghost var mem := vm.mem;
    var k := 0;
    while k < n
      invariant 0 <= k <= n && |vm.mem| == |mem|
      invariant forall f: nat {:trigger vm.mem[f]} :: f < |mem| ==>
        vm.mem[f] == if f < base + k then FrameAfter(mem, parent, u, n, base, f) else mem[f]
    {
      vm.mem := vm.mem[base + k := vm.mem[src[pt + k].frame]];
      k := k + 1;
    }
  }

  /** child' differs from child only behind the table whose first page is v0. */
  ghost predicate Outside(child: seq<Word>, child': seq<Word>, v0: nat)
  {
    |child'| == |child| && forall u :: 0 <= u < |child| && !(v0 <= u < v0 + ENTRIES) ==> child'[u] == child[u]
  }

  lemma SourceHeld(mem0: seq<Page>, runs0: map<nat, nat>, parent: seq<Word>, lo: nat, mem: seq<Page>,
                   runs: map<nat, nat>, u: nat, base: nat, n: nat)
    requires Grows(mem0, runs0, mem, runs) && RunsGood(parent, runs0) && PoolGood(runs0, lo, |mem0|) && u < |parent| &&
      Present(parent[u])
    requires FreeRange(runs, base, n)
    ensures parent[u].frame < |mem| && !(base <= parent[u].frame < base + n)
  {
    PageHeld(parent, runs0, lo, |mem0|, u);
    HeldStays(runs0, runs, parent[u].frame);
    if base <= parent[u].frame < base + n { FreshNotHeld(runs, base, n, parent[u].frame); }
  }

  /** The entries of a copied run, stored in the child's table. */
  method StoreRun(src: Page, page: Page, pt: nat, n: nat, base: nat, ghost parent: seq<Word>, ghost child: seq<Word>,
                  ghost v0: nat, ghost u: nat)
    returns (page': Page)
    requires TableAt(parent, v0, src) && TableAt(child, v0, page) && |parent| == |child| && pt + n <= ENTRIES &&
      u == v0 + pt
    ensures TableAt(Mapped(child, u, CloneWords(parent, u, n, base)), v0, page')
  {
    page' := page;
    var k := 0;
    while k < n
      invariant 0 <= k <= n && |page'| == ENTRIES
      invariant forall j {:trigger page'[j]} :: 0 <= j < ENTRIES ==>
        page'[j] == if pt <= j < pt + k then CloneWord(src[j], base, j - pt) else page[j]
    {
      page' := page'[pt + k := CloneWord(src[pt + k], base, k)];
      k := k + 1;
    }
    ghost var ws := CloneWords(parent, u, n, base);
    ghost var child' := Mapped(child, u, ws);
    forall j {:trigger page'[j]} | 0 <= j < ENTRIES ensures page'[j] == child'[v0 + j] {
      if pt <= j < pt + n { assert ws[j - pt] == CloneWord(parent[u + (j - pt)], base, j - pt) &&
        src[j] == parent[v0 + j]; }
    }
  }

  /** The parent's present entries from pt on may be copied to the fresh frames from base on. */
  ghost predicate Copyable(src: Page, pt: nat, n: nat, base: nat, hi: nat)
  {
    |src| == ENTRIES && pt + n <= ENTRIES && base + n <= hi &&
    forall j {:trigger src[j]} :: pt <= j < pt + n ==> src[j].frame < hi && !(base <= src[j].frame < base + n)
  }

  lemma SourcesFit(mem0: seq<Page>, runs0: map<nat, nat>, parent: seq<Word>, lo: nat, mem: seq<Page>,
                   runs: map<nat, nat>, src: Page, v0: nat, pt: nat, n: nat, base: nat)
    requires Grows(mem0, runs0, mem, runs) && RunsGood(parent, runs0) && PoolGood(runs0, lo, |mem0|) &&
      TableAt(parent, v0, src)
    requires pt + n <= ENTRIES && base + n <= |mem| && (forall j :: pt <= j < pt + n ==> Present(src[j])) &&
      FreeRange(runs, base, n)
    ensures Copyable(src, pt, n, base, |mem|)
  {
    forall j {:trigger src[j]} | pt <= j < pt + n ensures src[j].frame < |mem| && !(base <= src[j].frame < base + n) {
      assert src[j] == parent[v0 + j];
      SourceHeld(mem0, runs0, parent, lo, mem, runs, v0 + j, base, n);
    }
  }

  lemma RunDone(mem0: seq<Page>, runs0: map<nat, nat>, parent: seq<Word>, lo: nat, mem: seq<Page>, runs: map<nat, nat>,
                child: seq<Word>, src: Page, v0: nat, pt: nat, u: nat, tables: set<nat>, n: nat, base: nat,
                mem': seq<Page>) returns (child': seq<Word>)
    requires Cloning(mem0, runs0, parent, lo, mem, runs, child, u, tables) && RunsGood(parent, runs0) &&
      PoolGood(runs0, lo, |mem0|)
    requires TableAt(parent, v0, src) && u == v0 + pt && n > 0 && pt + n <= ENTRIES &&
      (forall j :: pt <= j < pt + n ==> Present(src[j]))
    requires FreeRange(runs, base, n) && PoolGood(runs[base := n], lo, |mem|) &&
      RunCopied(mem, parent, u, n, base, mem')
    ensures child' == Mapped(child, u, CloneWords(parent, u, n, base)) && Outside(child, child', v0)
    ensures Cloning(mem0, runs0, parent, lo, mem', runs[base := n], child', u + n, tables)
    ensures Grows(mem, runs, mem', runs[base := n])
  {
    child' := Mapped(child, u, CloneWords(parent, u, n, base));
    FreshBase(runs, base, n);
    AllPresent(parent, src, v0, pt, u, n);
    CloningRun(mem0, runs0, parent, lo, mem, runs, child, u, tables, n, base, mem');
    GrowsByRun(mem, runs, parent, u, n, base, mem');
    MappedOutside(child, v0, pt, u, CloneWords(parent, u, n, base));
  }

  lemma MappedOutside(child: seq<Word>, v0: nat, pt: nat, u: nat, ws: seq<Word>)
    requires pt + |ws| <= ENTRIES && v0 + ENTRIES <= |child| && u == v0 + pt
    ensures Outside(child, Mapped(child, u, ws), v0)
  {}

  lemma GrowsSame(mem: seq<Page>, runs: map<nat, nat>)
    requires Framed(mem)
    ensures Grows(mem, runs, mem, runs)
  {}

  /** A request for n frames that was met, or not. */
  ghost predicate Asked(pool: Pool, n: int, ok: bool, pool': Pool)
  {
    var i := HeapSpec.FirstFit(pool.frees, n);
    ok == (i < |pool.frees|) && pool' == if ok then PoolTaken(pool, i, n) else pool
  }

  /** One run of present entries: frames taken, contents copied, entries stored. */
  method CloneRun(vm: Vm, src: Page, page: Page, pt: nat, ghost mem0: seq<Page>, ghost runs0: map<nat, nat>,
                  ghost parent: seq<Word>, ghost child: seq<Word>, ghost v0: nat, ghost u: nat, ghost tables: set<nat>)
    returns (ok: bool, n: nat, page': Page, ghost child': seq<Word>, ghost u': nat)
    requires vm.Valid() && pt < ENTRIES && u == v0 + pt && TableAt(parent, v0, src) && TableAt(child, v0, page) &&
      Present(src[pt])
    requires Cloning(mem0, runs0, parent, vm.lo, vm.mem, vm.runs, child, u, tables) && RunsGood(parent, runs0) &&
      PoolGood(runs0, vm.lo, |mem0|)
    requires vm.pool.spares > 0
    modifies vm`runs, vm`pool, vm`mem
    ensures vm.Valid() && Grows(old(vm.mem), old(vm.runs), vm.mem, vm.runs) && vm.pool.spares >= old(vm.pool).spares - 1
    ensures IsRunOf(src, pt, n) && u' == u + n && Asked(old(vm.pool), n, ok, vm.pool)
    ensures !ok ==> vm.mem == old(vm.mem) && vm.runs == old(vm.runs)
    ensures ok ==> Cloning(mem0, runs0, parent, vm.lo, vm.mem, vm.runs, child', u', tables)
    ensures ok ==> TableAt(child', v0, page') && Outside(child, child', v0)
  {
    ghost var mem, runs := vm.mem, vm.runs;
    n := RunLength(src, pt);
    u' := u + n;
    var base := vm.Palloc(n);
    if base == 0 {
      GrowsSame(mem, runs);
      return false, n, page, child, u';
    }
    SourcesFit(mem0, runs0, parent, vm.lo, mem, runs, src, v0, pt, n, base);
    CopyFrames(vm, src, pt, n, base, parent, v0, u);
    child' := RunDone(mem0, runs0, parent, vm.lo, mem, runs, child, src, v0, pt, u, tables, n, base, vm.mem);
    page' := StoreRun(src, page, pt, n, base, parent, child, v0, u);
    ok := true;
  }

  lemma FreshBase(runs: map<nat, nat>, base: nat, n: nat)
    requires FreeRange(runs, base, n) && n > 0 && forall b :: b in runs ==> runs[b] > 0
    ensures base !in runs
  {}

  lemma AllPresent(parent: seq<Word>, src: Page, v0: nat, pt: nat, u: nat, n: nat)
    requires TableAt(parent, v0, src) && u == v0 + pt && pt + n <= ENTRIES && forall j :: pt <= j < pt + n ==>
      Present(src[j])
    ensures forall x :: u <= x < u + n ==> Present(parent[x])
  {
    forall x | u <= x < u + n ensures Present(parent[x]) { assert src[x - v0] == parent[v0 + (x - v0)]; }
  }

  /** What the loop over one table keeps: pages before u cloned, the child's table so far in page. */
  ghost predicate InTableLoop(mem0: seq<Page>, runs0: map<nat, nat>, parent: seq<Word>, lo: nat, mem: seq<Page>,
                              runs: map<nat, nat>, child0: seq<Word>, child: seq<Word>, v0: nat, pt: nat, u: nat,
                              tables: set<nat>, page: Page, mem1: seq<Page>, runs1: map<nat, nat>)
  {
    && pt <= ENTRIES && u == v0 + pt && Cloning(mem0, runs0, parent, lo, mem, runs, child, u, tables)
    && TableAt(child, v0, page)
    && Outside(child0, child, v0) && Grows(mem1, runs1, mem, runs)
  }

  lemma OutsideTwice(a: seq<Word>, b: seq<Word>, c: seq<Word>, v0: nat)
    requires Outside(a, b, v0) && Outside(b, c, v0)
    ensures Outside(a, c, v0)
  {}

  /** One turn of the loop over a table's entries. */
  method CloneNext(vm: Vm, src: Page, page: Page, pt: nat, ghost mem0: seq<Page>, ghost runs0: map<nat, nat>,
                   ghost parent: seq<Word>, ghost child0: seq<Word>, ghost child: seq<Word>, ghost v0: nat,
                   ghost u: nat, ghost tables: set<nat>, ghost mem1: seq<Page>, ghost runs1: map<nat, nat>,
                   ghost rest: int)
    returns (ok: bool, pt': nat, page': Page, ghost child': seq<Word>, ghost u': nat)
    requires vm.Valid() && pt < ENTRIES && TableAt(parent, v0, src) && RunsGood(parent, runs0) &&
      PoolGood(runs0, vm.lo, |mem0|)
    requires InTableLoop(mem0, runs0, parent, vm.lo, vm.mem, vm.runs, child0, child, v0, pt, u, tables, page, mem1,
      runs1)
    requires Affords(src, pt, rest, vm.pool.spares)
    modifies vm`runs, vm`pool, vm`mem
    ensures vm.Valid() && Grows(mem1, runs1, vm.mem, vm.runs) && (ok ==> Affords(src, pt', rest, vm.pool.spares))
    ensures InTableLoop(mem0, runs0, parent, vm.lo, vm.mem, vm.runs, child0, child', v0, pt', u', tables, page', mem1,
      runs1)
    ensures ok ==> pt < pt' <= ENTRIES && TableFate(vm.pool, src, pt') == TableFate(old(vm.pool), src, pt)
    ensures !ok ==> pt' == pt && Present(src[pt]) && TableFate(old(vm.pool), src, pt) == NoRun(vm.pool)
  {
    ghost var mem, runs, spares := vm.mem, vm.runs, vm.pool.spares;
    if !Present(src[pt]) {
      assert src[pt] == parent[u];
      CloningAbsent(mem0, runs0, parent, vm.lo, mem, runs, child, u, tables);
      ok, pt', page', child', u' := true, pt + 1, page, child, u + 1;
      AffordsPast(src, pt, pt', rest, spares);
      PastAbsent(vm.pool, src, pt, pt');
      return;
    }
    ok, pt', page', child', u' := CloneNextRun(vm, src, page, pt, mem0, runs0, parent, child0, child, v0, u, tables,
      mem1, runs1, rest);
  }

  method CloneNextRun(vm: Vm, src: Page, page: Page, pt: nat, ghost mem0: seq<Page>, ghost runs0: map<nat, nat>,
                      ghost parent: seq<Word>, ghost child0: seq<Word>, ghost child: seq<Word>, ghost v0: nat,
                      ghost u: nat, ghost tables: set<nat>, ghost mem1: seq<Page>, ghost runs1: map<nat, nat>,
                      ghost rest: int)
    returns (ok: bool, pt': nat, page': Page, ghost child': seq<Word>, ghost u': nat)
    requires vm.Valid() && pt < ENTRIES && TableAt(parent, v0, src) && RunsGood(parent, runs0) &&
      PoolGood(runs0, vm.lo, |mem0|) && Present(src[pt])
    requires InTableLoop(mem0, runs0, parent, vm.lo, vm.mem, vm.runs, child0, child, v0, pt, u, tables, page, mem1,
      runs1)
    requires Affords(src, pt, rest, vm.pool.spares)
    modifies vm`runs, vm`pool, vm`mem
    ensures vm.Valid() && Grows(mem1, runs1, vm.mem, vm.runs) && (ok ==> Affords(src, pt', rest, vm.pool.spares))
    ensures InTableLoop(mem0, runs0, parent, vm.lo, vm.mem, vm.runs, child0, child', v0, pt', u', tables, page', mem1,
      runs1)
    ensures ok ==> pt < pt' <= ENTRIES && TableFate(vm.pool, src, pt') == TableFate(old(vm.pool), src, pt)
    ensures !ok ==> pt' == pt && TableFate(old(vm.pool), src, pt) == NoRun(vm.pool)
  {
    ghost var pool, mem, runs := vm.pool, vm.mem, vm.runs;
    AffordsOne(src, pt, rest, pool.spares);
    var n;
    ok, n, page', child', u' := CloneRun(vm, src, page, pt, mem0, runs0, parent, child, v0, u, tables);
    pt' := pt + n;
    RunAsked(pool, src, pt, n, pt', ok, vm.pool);
    if !ok { return false, pt, page, child, u; }
    GrowsTwice(mem1, runs1, mem, runs, vm.mem, vm.runs);
    AffordsAfter(src, pt, n, pt', rest, pool.spares, vm.pool.spares);
    OutsideTwice(child0, child, child', v0);
  }

  lemma RunAsked(pool: Pool, src: Page, pt: nat, n: nat, pt': nat, ok: bool, pool': Pool)
    requires IsRunOf(src, pt, n) && pt' == pt + n && Asked(pool, n, ok, pool')
    ensures TableFate(pool, src, pt) == if ok then TableFate(pool', src, pt') else NoRun(pool')
  {
    PastRun(pool, src, pt, n, pt');
  }

  /** The loop over one table. */
  method CloneTable(vm: Vm, src: Page, ghost mem0: seq<Page>, ghost runs0: map<nat, nat>, ghost parent: seq<Word>,
                    ghost child0: seq<Word>, ghost v0: nat, ghost end: nat, ghost tables: set<nat>, ghost rest: int)
    returns (ok: bool, page: Page, ghost child: seq<Word>, pt: nat, ghost u: nat)
    requires vm.Valid() && TableAt(parent, v0, src) && RunsGood(parent, runs0) && PoolGood(runs0, vm.lo, |mem0|)
    requires Cloning(mem0, runs0, parent, vm.lo, vm.mem, vm.runs, child0, v0, tables) && TableAt(child0, v0, ZeroPage())
    requires Affords(src, 0, rest, vm.pool.spares) && end == v0 + ENTRIES
    modifies vm`runs, vm`pool, vm`mem
    ensures ok ==> vm.pool.spares >= rest
    ensures vm.Valid() && Grows(old(vm.mem), old(vm.runs), vm.mem, vm.runs)
    ensures InTableLoop(mem0, runs0, parent, vm.lo, vm.mem, vm.runs, child0, child, v0, pt, u, tables, page,
      old(vm.mem), old(vm.runs))
    ensures ok ==> pt == ENTRIES && u == end && TableFate(old(vm.pool), src, 0) == Through(vm.pool)
    ensures !ok ==> pt < ENTRIES && Present(src[pt]) && TableFate(old(vm.pool), src, 0) == NoRun(vm.pool)
  {
    ghost var mem1, runs1 := vm.mem, vm.runs;
    page, child := ZeroPage(), child0;
    GrowsSame(mem1, runs1);
    ok, pt, u := true, 0, v0;
    while pt < ENTRIES
      invariant 0 <= pt <= ENTRIES && ok && vm.Valid() && TableFate(vm.pool, src, pt) == TableFate(old(vm.pool), src, 0)
      invariant InTableLoop(mem0, runs0, parent, vm.lo, vm.mem, vm.runs, child0, child, v0, pt, u, tables, page, mem1,
        runs1)
      invariant Affords(src, pt, rest, vm.pool.spares)
    {
      ok, pt, page, child, u := CloneNext(vm, src, page, pt, mem0, runs0, parent, child0, child, v0, u, tables, mem1,
        runs1, rest);
      if !ok { return; }
    }
  }

  // ---- the loop over the directory ----

  /** Entries before pd are cloned: the child's directory maps child, whose pages before the next table are copies. */
  ghost predicate InDirLoop(mem0: seq<Page>, runs0: map<nat, nat>, parent: seq<Word>, lo: nat, mem: seq<Page>,
                            runs: map<nat, nat>, dst0: seq<Word>, dst: seq<Word>, pd: nat, v: nat)
  {
    && pd <= USER && v == 1024 * pd && TablesGood(mem, runs, dst)
    && Cloning(mem0, runs0, parent, lo, mem, runs, PagesOf(mem, dst), v, TableFrames(dst))
    && |dst0| == ENTRIES && (forall q :: pd <= q < ENTRIES ==> dst[q] == dst0[q])
  }

  lemma TableFilled(mem0: seq<Page>, runs0: map<nat, nat>, parent: seq<Word>, lo: nat, mem1: seq<Page>,
                    runs1: map<nat, nat>, dst0: seq<Word>, dst: seq<Word>, pd: nat, v: nat, end: nat, t: nat,
                    mem: seq<Page>, runs: map<nat, nat>, child: seq<Word>, page: Page, e: Word)
    requires InDirLoop(mem0, runs0, parent, lo, mem1, runs1, dst0, dst, pd, v) && pd < USER && dst[pd] == ZERO &&
      t !in runs1
    requires InTableLoop(mem0, runs0, parent, lo, mem, runs, PagesOf(mem1, dst), child, v, ENTRIES, end,
      TableFrames(dst) + {t}, page, mem1, runs1[t := 1])
    requires e.frame == t && t > 0 && t < |mem| && e.flags & PSE == 0
    ensures InDirLoop(mem0, runs0, parent, lo, mem[t := page], runs, dst0, dst[pd := e], pd + 1, end)
  {
    GrowsByTable(mem1, runs1, t, mem, runs);
    FilledTables(mem1, runs1, dst, pd, v, t, mem, runs, child, page, e);
    CloningStore(mem0, runs0, parent, lo, mem, runs, child, end, TableFrames(dst) + {t}, t, page);
  }

  lemma GrowsByTable(mem1: seq<Page>, runs1: map<nat, nat>, t: nat, mem: seq<Page>, runs: map<nat, nat>)
    requires Framed(mem1) && t !in runs1 && Grows(mem1, runs1[t := 1], mem, runs)
    ensures Grows(mem1, runs1, mem, runs)
  {
    assert Grows(mem1, runs1, mem1, runs1[t := 1]);
    GrowsTwice(mem1, runs1, mem1, runs1[t := 1], mem, runs);
  }

  lemma FilledTables(mem1: seq<Page>, runs1: map<nat, nat>, dst: seq<Word>, pd: nat, v: nat, t: nat, mem: seq<Page>,
                     runs: map<nat, nat>, child: seq<Word>, page: Page, e: Word)
    requires TablesGood(mem1, runs1, dst) && pd < USER && dst[pd] == ZERO && t !in runs1 &&
      Grows(mem1, runs1, mem, runs)
    requires t in runs && runs[t] == 1 && e.frame == t && t > 0 && t < |mem| && e.flags & PSE == 0
    requires v == 1024 * pd && TableAt(child, v, page) && Outside(PagesOf(mem1, dst), child, v)
    ensures TablesGood(mem[t := page], runs, dst[pd := e]) && TableFrames(dst[pd := e]) == TableFrames(dst) + {t}
    ensures PagesOf(mem[t := page], dst[pd := e]) == child
  {
    SpaceStays(mem1, runs1, dst, mem, runs);
    TablesHeld(mem1, runs1, dst);
    TableStoredGood(mem, runs, dst, pd, e, page, runs);
    ChildMapped(mem, runs, dst, pd, v, e, page, child);
  }

  lemma ChildMapped(mem: seq<Page>, runs: map<nat, nat>, dst: seq<Word>, pd: nat, v: nat, e: Word, page: Page,
                    child: seq<Word>)
    requires TablesGood(mem, runs, dst) && pd < USER && dst[pd] == ZERO && e != ZERO && e.frame < |mem| &&
      e.frame !in TableFrames(dst)
    requires v == 1024 * pd && TableAt(child, v, page) && Outside(PagesOf(mem, dst), child, v) && |child| == USER_PAGES
    ensures PagesOf(mem[e.frame := page], dst[pd := e]) == child
  {
    var p := PagesOf(mem[e.frame := page], dst[pd := e]);
    forall u | 0 <= u < USER_PAGES ensures p[u] == child[u] {
      TableStored(mem, runs, dst, pd, e, page, u);
      if u / ENTRIES == pd { assert page[u % ENTRIES] == child[v + u % ENTRIES]; }
    }
  }

  lemma EmptyEntry(mem0: seq<Page>, runs0: map<nat, nat>, src: seq<Word>, lo: nat, mem: seq<Page>, runs: map<nat, nat>,
                   dst0: seq<Word>, dst: seq<Word>, pd: nat, v: nat, end: nat)
    requires InDirLoop(mem0, runs0, PagesOf(mem0, src), lo, mem, runs, dst0, dst, pd, v) && pd < USER &&
      end == v + ENTRIES
    requires TablesGood(mem0, runs0, src) && src[pd] == ZERO
    ensures InDirLoop(mem0, runs0, PagesOf(mem0, src), lo, mem, runs, dst0, dst, pd + 1, end)
  {
    var parent := PagesOf(mem0, src);
    NothingThere(mem0, runs0, src, pd, v, end);
    CloningEmpty(mem0, runs0, parent, lo, mem, runs, PagesOf(mem, dst), v, TableFrames(dst), end);
  }

  lemma NothingThere(mem: seq<Page>, runs: map<nat, nat>, src: seq<Word>, pd: nat, v: nat, end: nat)
    requires TablesGood(mem, runs, src) && pd < USER && src[pd] == ZERO && v == 1024 * pd && end == v + ENTRIES
    ensures end <= USER_PAGES && NonePresent(PagesOf(mem, src), v, end)
  {
    var parent := PagesOf(mem, src);
    TablePages(mem, runs, src, pd);
    forall u | v <= u < end ensures !Present(parent[u]) { assert ZeroPage()[u - v] == parent[v + (u - v)]; }
  }

  /** The source table is still what it was, and the child has nothing behind entry pd yet. */
  lemma EntryReady(mem0: seq<Page>, runs0: map<nat, nat>, src: seq<Word>, lo: nat, mem: seq<Page>, runs: map<nat, nat>,
                   dst0: seq<Word>, dst: seq<Word>, pd: nat, v: nat)
    requires InDirLoop(mem0, runs0, PagesOf(mem0, src), lo, mem, runs, dst0, dst, pd, v) && pd < USER &&
      TablesGood(mem0, runs0, src)
    requires src[pd] != ZERO && dst[pd] == ZERO
    ensures src[pd].frame < |mem| && TableAt(PagesOf(mem0, src), v, mem[src[pd].frame]) && src[pd].flags & PSE == 0
    ensures EntryCost(mem0, src[pd]) == 1 + Starts(mem[src[pd].frame], 0)
    ensures src[pd].frame < |mem0| && mem[src[pd].frame] == mem0[src[pd].frame]
    ensures TableAt(PagesOf(mem, dst), v, ZeroPage())
  {
    TablePages(mem0, runs0, src, pd);
    SpaceStays(mem0, runs0, src, mem, runs);
    TablePages(mem, runs, dst, pd);
    assert TableGood(src[pd], mem0, runs0);
  }

  /** Descriptors that cloning the tables from entry pd on may take: one for each table, and one for each run in it. */
  ghost function CloneCost(mem: seq<Page>, src: seq<Word>, pd: nat): nat
    requires pd <= USER <= |src|
    decreases USER - pd
  {
    if pd == USER then 0 else EntryCost(mem, src[pd]) + CloneCost(mem, src, pd + 1)
  }

  ghost function EntryCost(mem: seq<Page>, e: Word): nat
  {
    if e != ZERO && e.frame < |mem| then 1 + Starts(mem[e.frame], 0) else 0
  }

  /** What a clone that fails has begun and not finished: nothing, or a table whose entries before pt are made. */
  datatype Stub = Nothing | Begun(table: nat, page: Page, pt: nat)

  /** The runs behind it. */
  ghost function Left(stub: Stub): set<nat>
  {
    match stub
    case Nothing => {}
    case Begun(table, page, pt) => {table} + HeadFrames(page)
  }

  /** The entries made are copies of the parent's, the next one is where a run was asked for. */
  ghost predicate StubGood(mem0: seq<Page>, src: Page, mem: seq<Page>, page: Page, pt: nat)
  {
    && |src| == |page| == ENTRIES && pt < ENTRIES && Present(src[pt])
    && (forall j :: 0 <= j < pt ==> Copied(mem0, src[j], mem, page[j]))
    && (forall j :: pt <= j < ENTRIES ==> page[j] == ZERO)
  }

  lemma HeadsSplit(a: seq<Word>, b: seq<Word>, v0: nat, page: Page)
    requires TableAt(a, v0, ZeroPage()) && TableAt(b, v0, page) && Outside(a, b, v0)
    ensures HeadFrames(b) == HeadFrames(a) + HeadFrames(page)
  {
    forall f | f in HeadFrames(b) ensures f in HeadFrames(a) + HeadFrames(page) {
      var h :| 0 <= h < |b| && Head(b[h]) && b[h].frame == f;
      if v0 <= h < v0 + ENTRIES { assert page[h - v0] == b[v0 + (h - v0)]; } else { assert a[h] == b[h]; }
    }
    forall f | f in HeadFrames(page) ensures f in HeadFrames(b) {
      var j :| 0 <= j < |page| && Head(page[j]) && page[j].frame == f;
      assert page[j] == b[v0 + j];
    }
    forall f | f in HeadFrames(a) ensures f in HeadFrames(b) {
      var h :| 0 <= h < |a| && Head(a[h]) && a[h].frame == f;
      NoHeadInside(a, v0, h);
      assert a[h] == b[h];
    }
  }

  lemma NoHeadInside(a: seq<Word>, v0: nat, h: nat)
    requires TableAt(a, v0, ZeroPage()) && h < |a|
    ensures v0 <= h < v0 + ENTRIES ==> !Head(a[h])
  {
    if v0 <= h < v0 + ENTRIES {
      var j := h - v0;
      assert ZeroPage()[j] == a[v0 + j];
    }
  }

  /** The heads in the new table are none of the child's other heads. */
  lemma HeadsApart(a: seq<Word>, b: seq<Word>, runs: map<nat, nat>, v0: nat, page: Page)
    requires TableAt(a, v0, ZeroPage()) && TableAt(b, v0, page) && Outside(a, b, v0) && RunsGood(b, runs)
    ensures HeadFrames(a) !! HeadFrames(page)
  {
    forall h, j | 0 <= h < |a| && Head(a[h]) && 0 <= j < |page| && Head(page[j])
      ensures a[h].frame != page[j].frame
    {
      NoHeadInside(a, v0, h);
      assert page[j] == b[v0 + j];
    }
  }

  lemma LeftKeys(mem0: seq<Page>, runs0: map<nat, nat>, parent: seq<Word>, lo: nat, mem1: seq<Page>,
                 runs1: map<nat, nat>, child0: seq<Word>, v: nat, tables: set<nat>, t: nat, mem: seq<Page>,
                 runs: map<nat, nat>, child: seq<Word>, pt: nat, u: nat, page: Page)
    requires Cloning(mem0, runs0, parent, lo, mem1, runs1, child0, v, tables) && TableAt(child0, v, ZeroPage())
    requires InTableLoop(mem0, runs0, parent, lo, mem, runs, child0, child, v, pt, u, tables + {t}, page, mem1,
      runs1[t := 1])
    requires t !in runs1
    ensures runs.Keys == runs1.Keys + Left(Begun(t, page, pt)) && Left(Begun(t, page, pt)) !! runs1.Keys
  {
    HeadsSplit(child0, child, v, page);
    HeadsApart(child0, child, runs, v, page);
    KeysSplit(runs0.Keys, runs1.Keys, runs.Keys, HeadFrames(child0), HeadFrames(child), HeadFrames(page), tables, t);
  }

  lemma KeysSplit(keys0: set<nat>, keys1: set<nat>, keys: set<nat>, heads0: set<nat>, heads: set<nat>, more: set<nat>,
                  tables: set<nat>, t: nat)
    requires NewKeys(keys0, keys1, heads0, tables) && NewKeys(keys0, keys, heads, tables + {t}) && t !in keys1
    requires heads == heads0 + more && heads0 !! more
    ensures keys == keys1 + ({t} + more) && ({t} + more) !! keys1
  {}

  /** The runs of a table were not all to be had. */
  ghost predicate StoppedIn(mem0: seq<Page>, src: Page, mem1: seq<Page>, runs1: map<nat, nat>, mem: seq<Page>,
                            runs: map<nat, nat>, stub: Stub)
  {
    && stub.Begun? && Grows(mem1, runs1, mem, runs) && StubGood(mem0, src, mem, stub.page, stub.pt)
    && runs.Keys == runs1.Keys + Left(stub) && Left(stub) !! runs1.Keys
  }

  lemma Stops(mem0: seq<Page>, runs0: map<nat, nat>, parent: seq<Word>, lo: nat, mem1: seq<Page>,
              runs1: map<nat, nat>, child0: seq<Word>, v: nat, tables: set<nat>, t: nat, mem: seq<Page>,
              runs: map<nat, nat>, child: seq<Word>, pt: nat, u: nat, page: Page, src: Page)
    requires Cloning(mem0, runs0, parent, lo, mem1, runs1, child0, v, tables) && TableAt(child0, v, ZeroPage())
    requires InTableLoop(mem0, runs0, parent, lo, mem, runs, child0, child, v, pt, u, tables + {t}, page, mem1,
      runs1[t := 1])
    requires t !in runs1 && Framed(mem1) && TableAt(parent, v, src) && pt < ENTRIES && Present(src[pt])
    ensures StoppedIn(mem0, src, mem1, runs1, mem, runs, Begun(t, page, pt))
  {
    GrowsByTable(mem1, runs1, t, mem, runs);
    LeftKeys(mem0, runs0, parent, lo, mem1, runs1, child0, v, tables, t, mem, runs, child, pt, u, page);
    StubMade(mem0, runs0, parent, lo, mem, runs, child0, child, v, pt, u, tables + {t}, page, mem1, runs1[t := 1], src);
  }

  lemma StubMade(mem0: seq<Page>, runs0: map<nat, nat>, parent: seq<Word>, lo: nat, mem: seq<Page>,
                 runs: map<nat, nat>, child0: seq<Word>, child: seq<Word>, v: nat, pt: nat, u: nat, tables: set<nat>,
                 page: Page, mem1: seq<Page>, runs1: map<nat, nat>, src: Page)
    requires InTableLoop(mem0, runs0, parent, lo, mem, runs, child0, child, v, pt, u, tables, page, mem1, runs1)
    requires TableAt(parent, v, src) && pt < ENTRIES && Present(src[pt])
    ensures StubGood(mem0, src, mem, page, pt)
  {
    forall j | 0 <= j < pt ensures Copied(mem0, src[j], mem, page[j]) {
      assert src[j] == parent[v + j] && page[j] == child[v + j];
    }
    forall j | pt <= j < ENTRIES ensures page[j] == ZERO { assert page[j] == child[v + j]; }
  }

  /** The clone stopped at entry pd, for want of a table or of a run in it. */
  ghost predicate StoppedAt(mem0: seq<Page>, src: seq<Word>, pool: Pool, mem1: seq<Page>, runs1: map<nat, nat>, pd: nat,
                            mem: seq<Page>, pool': Pool, runs: map<nat, nat>, stub: Stub)
    requires pd < USER <= |src|
  {
    if stub.Nothing? then
      mem == mem1 && runs == runs1 && Framed(mem1) && DirFate(pool, mem0, src, pd) == NoTable(pool')
    else
      src[pd].frame < |mem0| && StoppedIn(mem0, mem0[src[pd].frame], mem1, runs1, mem, runs, stub) &&
      DirFate(pool, mem0, src, pd) == NoRun(pool')
  }

  /** A table taken and filled for directory entry e, when the child's directory is d; or what can be had of it. */
  method FillTable(vm: Vm, e: Word, pd: nat, ghost v: nat, ghost end: nat, ghost mem0: seq<Page>,
                   ghost runs0: map<nat, nat>, ghost src: seq<Word>, ghost dst0: seq<Word>, ghost d: seq<Word>,
                   ghost parent: seq<Word>, ghost rest: nat)
    returns (ok: bool, t: nat, page: Page, ghost child: seq<Word>, ghost stub: Stub)
    requires vm.Valid() && pd < USER && |src| == |d| == ENTRIES && e == src[pd] != ZERO && d[pd] == ZERO
    requires SpaceGood(mem0, runs0, src) && PoolGood(runs0, vm.lo, |mem0|) && end == v + ENTRIES
    requires parent == PagesOf(mem0, src) && InDirLoop(mem0, runs0, parent, vm.lo, vm.mem, vm.runs, dst0, d, pd, v)
    requires e.frame < |mem0| && vm.pool.spares >= EntryCost(mem0, e) + rest
    modifies vm`runs, vm`pool, vm`mem
    ensures vm.Valid() && e.flags & PSE == 0 && (ok ==> vm.pool.spares >= rest)
    ensures ok ==> Filled(mem0, runs0, parent, vm.lo, old(vm.mem), old(vm.runs), d, v, end, t, vm.mem, vm.runs, child,
      page)
    ensures !ok && stub.Nothing? ==> vm.mem == old(vm.mem) && vm.runs == old(vm.runs)
    ensures !ok && stub.Begun? ==> StoppedIn(mem0, mem0[e.frame], old(vm.mem), old(vm.runs), vm.mem, vm.runs, stub)
    ensures TableAsked(old(vm.pool), mem0[e.frame], ok, stub, vm.pool)
  {
    ghost var mem1, runs1 := vm.mem, vm.runs;
    stub, page, child := Nothing, [], [];
    EntryReady(mem0, runs0, src, vm.lo, mem1, runs1, dst0, d, pd, v);
    t := vm.Palloc(1);
    if t == 0 { return false, t, page, child, stub; }
    FreshBase(runs1, t, 1);
    ghost var child0, tables := PagesOf(mem1, d), TableFrames(d);
    CloningTable(mem0, runs0, parent, vm.lo, mem1, runs1, child0, v, tables, t);
    var pt;
    ghost var u;
    ghost var from, more := vm.mem[e.frame], tables + {t};
    ok, page, child, pt, u := CloneTable(vm, vm.mem[e.frame], mem0, runs0, parent, child0, v, end, more, rest);
    if !ok {
      stub := Begun(t, page, pt);
      Stops(mem0, runs0, parent, vm.lo, mem1, runs1, child0, v, tables, t, vm.mem, vm.runs, child, pt, u, page, from);
    }
  }

  /** Table t with what was stored in page completes the child up to page end. */
  ghost predicate Filled(mem0: seq<Page>, runs0: map<nat, nat>, parent: seq<Word>, lo: nat, mem1: seq<Page>,
                         runs1: map<nat, nat>, d: seq<Word>, v: nat, end: nat, t: nat, mem: seq<Page>,
                         runs: map<nat, nat>, child: seq<Word>, page: Page)
  {
    && 0 < t < |mem| && t !in runs1
    && InTableLoop(mem0, runs0, parent, lo, mem, runs, PagesOf(mem1, d), child, v, ENTRIES, end, TableFrames(d) + {t},
                   page, mem1, runs1[t := 1])
  }

  /** The requests for a table and its runs that were met, or not. */
  ghost predicate TableAsked(pool: Pool, src: Page, ok: bool, stub: Stub, pool': Pool)
  {
    var i := HeapSpec.FirstFit(pool.frees, 1);
    if i == |pool.frees| then !ok && stub.Nothing? && pool' == pool
    else
      TableFate(PoolTaken(pool, i, 1), src, 0) == (if ok then Through(pool') else NoRun(pool')) && (ok || stub.Begun?)
  }

  lemma EntryAsked(pool: Pool, mem: seq<Page>, dir: seq<Word>, pd: nat, pd': nat, ok: bool, stub: Stub, pool': Pool)
    requires pd < USER <= |dir| && dir[pd] != ZERO && dir[pd].frame < |mem| && pd' == pd + 1
    requires TableAsked(pool, mem[dir[pd].frame], ok, stub, pool')
    ensures DirFate(pool, mem, dir, pd) == if ok then DirFate(pool', mem, dir, pd') else FateOf(false, pool', stub)
  {
    AtTable(pool, mem, dir, pd, pd');
  }

  lemma StoppedKeys(mem0: seq<Page>, src: seq<Word>, pool: Pool, mem1: seq<Page>, runs1: map<nat, nat>, pd: nat,
                    mem: seq<Page>, pool': Pool, runs: map<nat, nat>, stub: Stub)
    requires pd < USER <= |src| && StoppedAt(mem0, src, pool, mem1, runs1, pd, mem, pool', runs, stub)
    ensures Grows(mem1, runs1, mem, runs) && runs.Keys == runs1.Keys + Left(stub) && Left(stub) !! runs1.Keys
  {
    if stub.Nothing? { GrowsSame(mem1, runs1); }
  }

  /** One directory entry of clone_process_pages. */
  method CloneEntry(vm: Vm, dst: array<Word>, e: Word, pd: nat, ghost v: nat, ghost end: nat, ghost mem0: seq<Page>,
                    ghost runs0: map<nat, nat>, ghost src: seq<Word>, ghost dst0: seq<Word>)
    returns (ok: bool, ghost stub: Stub)
    requires vm.Valid() && dst.Length == ENTRIES && pd < USER && |src| == ENTRIES && e == src[pd] && dst[pd] == ZERO &&
      end == v + ENTRIES
    requires SpaceGood(mem0, runs0, src) && PoolGood(runs0, vm.lo, |mem0|)
    requires InDirLoop(mem0, runs0, PagesOf(mem0, src), vm.lo, vm.mem, vm.runs, dst0, dst[..], pd, v)
    requires vm.pool.spares >= CloneCost(mem0, src, pd)
    modifies vm`runs, vm`pool, vm`mem, dst
    ensures vm.Valid()
    ensures ok ==> InDirLoop(mem0, runs0, PagesOf(mem0, src), vm.lo, vm.mem, vm.runs, dst0, dst[..], pd + 1, end)
    ensures ok ==> vm.pool.spares >= CloneCost(mem0, src, pd + 1)
    ensures ok ==> DirFate(old(vm.pool), mem0, src, pd) == DirFate(vm.pool, mem0, src, pd + 1)
    ensures !ok ==> dst[..] == old(dst[..])
    ensures !ok ==> StoppedAt(mem0, src, old(vm.pool), old(vm.mem), old(vm.runs), pd, vm.mem, vm.pool, vm.runs, stub)
  {
    ghost var pool, mem1, runs1, d := vm.pool, vm.mem, vm.runs, dst[..];
    ghost var next := pd + 1;
    stub := Nothing;
    if e == ZERO {
      EmptyEntry(mem0, runs0, src, vm.lo, mem1, runs1, dst0, d, pd, v, end);
      PastEmpty(pool, mem0, src, pd, next);
      return true, stub;
    }
    ok, stub := CloneUsed(vm, dst, e, pd, v, end, mem0, runs0, src, dst0, PagesOf(mem0, src), next,
      CloneCost(mem0, src, next));
    EntryAsked(pool, mem0, src, pd, next, ok, stub, vm.pool);
  }

  /** The same, and what the child's directory will be with the table in place. */
  method MakeTable(vm: Vm, e: Word, pd: nat, ghost v: nat, ghost end: nat, ghost mem0: seq<Page>,
                   ghost runs0: map<nat, nat>, ghost src: seq<Word>, ghost dst0: seq<Word>, ghost d: seq<Word>,
                   ghost parent: seq<Word>, ghost rest: nat, ghost next: nat)
    returns (ok: bool, t: nat, page: Page, ghost stub: Stub)
    requires vm.Valid() && pd < USER && |src| == |d| == ENTRIES && e == src[pd] != ZERO && d[pd] == ZERO
    requires SpaceGood(mem0, runs0, src) && PoolGood(runs0, vm.lo, |mem0|) && end == v + ENTRIES && next == pd + 1
    requires parent == PagesOf(mem0, src) && InDirLoop(mem0, runs0, parent, vm.lo, vm.mem, vm.runs, dst0, d, pd, v)
    requires e.frame < |mem0| && vm.pool.spares >= EntryCost(mem0, e) + rest
    modifies vm`runs, vm`pool, vm`mem
    ensures vm.Valid() && (ok ==> vm.pool.spares >= rest && t < |vm.mem| && |page| == ENTRIES)
    ensures ok ==> InDirLoop(mem0, runs0, parent, vm.lo, vm.mem[t := page], vm.runs, dst0, d[pd := Word(t, e.flags)],
      next, end)
    ensures !ok && stub.Nothing? ==> vm.mem == old(vm.mem) && vm.runs == old(vm.runs)
    ensures !ok && stub.Begun? ==> StoppedIn(mem0, mem0[e.frame], old(vm.mem), old(vm.runs), vm.mem, vm.runs, stub)
    ensures TableAsked(old(vm.pool), mem0[e.frame], ok, stub, vm.pool)
  {
    ghost var mem1, runs1 := vm.mem, vm.runs;
    ghost var child;
    ok, t, page, child, stub := FillTable(vm, e, pd, v, end, mem0, runs0, src, dst0, d, parent, rest);
    if ok {
      TableFilled(mem0, runs0, parent, vm.lo, mem1, runs1, dst0, d, pd, v, end, t, vm.mem, vm.runs, child, page,
        Word(t, e.flags));
    }
  }

  /** An entry that has a table. */
  method CloneUsed(vm: Vm, dst: array<Word>, e: Word, pd: nat, ghost v: nat, ghost end: nat, ghost mem0: seq<Page>,
                   ghost runs0: map<nat, nat>, ghost src: seq<Word>, ghost dst0: seq<Word>,
                   ghost parent: seq<Word>, ghost next: nat, ghost rest: nat)
    returns (ok: bool, ghost stub: Stub)
    requires vm.Valid() && dst.Length == ENTRIES && pd < USER && |src| == ENTRIES && e == src[pd] != ZERO
    requires dst[pd] == ZERO && end == v + ENTRIES
    requires parent == PagesOf(mem0, src) && next == pd + 1 && rest == CloneCost(mem0, src, next)
    requires SpaceGood(mem0, runs0, src) && PoolGood(runs0, vm.lo, |mem0|)
    requires InDirLoop(mem0, runs0, parent, vm.lo, vm.mem, vm.runs, dst0, dst[..], pd, v)
    requires vm.pool.spares >= CloneCost(mem0, src, pd)
    modifies vm`runs, vm`pool, vm`mem, dst
    ensures vm.Valid()
    ensures ok ==> InDirLoop(mem0, runs0, parent, vm.lo, vm.mem, vm.runs, dst0, dst[..], next, end)
    ensures ok ==> vm.pool.spares >= rest
    ensures e.frame < |mem0| && TableAsked(old(vm.pool), mem0[e.frame], ok, stub, vm.pool)
    ensures !ok ==> dst[..] == old(dst[..])
    ensures !ok && stub.Nothing? ==> vm.mem == old(vm.mem) && vm.runs == old(vm.runs)
    ensures !ok && stub.Begun? ==> StoppedIn(mem0, mem0[e.frame], old(vm.mem), old(vm.runs), vm.mem, vm.runs, stub)
  {
    ghost var d := dst[..];
    assert TableGood(src[pd], mem0, runs0);
    if e.flags & PSE != 0 { assert false; }
    var t, page;
    ok, t, page, stub := MakeTable(vm, e, pd, v, end, mem0, runs0, src, dst0, d, parent, rest, next);
    SameWords(dst);
    if ok { StoreTable(vm, dst, pd, t, page, Word(t, e.flags), d, mem0, runs0, parent, dst0, next, end); }
  }

  twostate lemma SameWords(a: array<Word>)
    requires unchanged(a)
    ensures a[..] == old(a[..])
  {}

  /** The child's finished table goes in place. */
  method StoreTable(vm: Vm, dst: array<Word>, pd: nat, t: nat, page: Page, e: Word, ghost d: seq<Word>,
                    ghost mem0: seq<Page>, ghost runs0: map<nat, nat>, ghost parent: seq<Word>, ghost dst0: seq<Word>,
                    ghost next: nat, ghost end: nat)
    requires vm.Valid() && t < |vm.mem| && |page| == ENTRIES && pd < dst.Length && dst[..] == d
    requires InDirLoop(mem0, runs0, parent, vm.lo, vm.mem[t := page], vm.runs, dst0, d[pd := e], next, end)
    modifies vm`mem, dst
    ensures vm.Valid() && InDirLoop(mem0, runs0, parent, vm.lo, vm.mem, vm.runs, dst0, dst[..], next, end)
    ensures vm.pool == old(vm.pool)
  {
    vm.mem := vm.mem[t := page];
    dst[pd] := e;
    assert dst[..] == d[pd := e];
  }

  /** The child's space is good, its pages are copies with the same access, its runs are new; the parent is as it
      was. */
  ghost predicate Cloned(mem0: seq<Page>, runs0: map<nat, nat>, src: seq<Word>, mem: seq<Page>, runs: map<nat, nat>,
                         dst: seq<Word>)
  {
    && SpaceGood(mem, runs, dst) && SpaceGood(mem, runs, src) && PagesOf(mem, src) == PagesOf(mem0, src)
    && Grows(mem0, runs0, mem, runs)
    && (forall v :: 0 <= v < USER_PAGES ==> Copied(mem0, PagesOf(mem0, src)[v], mem, PagesOf(mem, dst)[v]))
    && Keys(mem, dst) !! runs0.Keys && runs.Keys == runs0.Keys + Keys(mem, dst)
  }

  lemma CloneDone(mem0: seq<Page>, runs0: map<nat, nat>, src: seq<Word>, lo: nat, mem: seq<Page>, runs: map<nat, nat>,
                  dst0: seq<Word>, dst: seq<Word>)
    requires InDirLoop(mem0, runs0, PagesOf(mem0, src), lo, mem, runs, dst0, dst, USER, USER_PAGES) &&
      SpaceGood(mem0, runs0, src)
    ensures Cloned(mem0, runs0, src, mem, runs, dst)
  {
    SpaceStays(mem0, runs0, src, mem, runs);
    RunsExtend(PagesOf(mem0, src), runs0, runs);
  }

  /** What a failed clone leaves: the child empty, the parent as it was, and of the child's runs just those behind the
      table that was not finished. */
  ghost predicate CloneUndone(mem0: seq<Page>, runs0: map<nat, nat>, src: seq<Word>, mem: seq<Page>,
                              runs: map<nat, nat>, dst0: seq<Word>, dst: seq<Word>, stub: Stub)
  {
    && DirCleared(dst0, dst, USER) && SpaceGood(mem, runs, src) && PagesOf(mem, src) == PagesOf(mem0, src)
    && Grows(mem0, runs0, mem, runs) && runs.Keys == runs0.Keys + Left(stub) && Left(stub) !! runs0.Keys
  }

  lemma StillGood(mem: seq<Page>, runs: map<nat, nat>, dir: seq<Word>, mem': seq<Page>, runs': map<nat, nat>)
    requires SpaceGood(mem, runs, dir) && Grows(mem, runs, mem', runs')
    ensures SpaceGood(mem', runs', dir) && PagesOf(mem', dir) == PagesOf(mem, dir) && Keys(mem', dir) == Keys(mem, dir)
  {
    SpaceStays(mem, runs, dir, mem', runs');
    RunsExtend(PagesOf(mem, dir), runs, runs');
  }

  lemma UndoneKeeps(mem0: seq<Page>, runs0: map<nat, nat>, src: seq<Word>, mem1: seq<Page>, runs1: map<nat, nat>,
                    dst: seq<Word>, mem: seq<Page>, runs: map<nat, nat>)
    requires SpaceGood(mem0, runs0, src) && Grows(mem0, runs0, mem1, runs1) && Grows(mem1, runs1, mem, runs) &&
      Keys(mem, dst) !! runs0.Keys
    ensures Grows(mem0, runs0, mem, runs - Keys(mem, dst)) && SpaceGood(mem, runs - Keys(mem, dst), src) &&
      PagesOf(mem, src) == PagesOf(mem0, src)
  {
    GrowsTwice(mem0, runs0, mem1, runs1, mem, runs);
    assert Grows(mem0, runs0, mem, runs - Keys(mem, dst));
    StillGood(mem0, runs0, src, mem, runs - Keys(mem, dst));
  }

  /** The loop over the directory, which gives up at the first page that cannot be had. */
  method CloneTables(vm: Vm, dst: array<Word>, src: array<Word>, ghost mem0: seq<Page>, ghost runs0: map<nat, nat>,
                     ghost s: seq<Word>, ghost dst0: seq<Word>)
    returns (ok: bool, ghost at: Pool, ghost held: set<nat>, ghost stub: Stub)
    requires vm.Valid() && dst.Length == ENTRIES && src.Length == ENTRIES && dst != src && src[..] == s &&
      dst[..] == dst0
    requires SpaceGood(mem0, runs0, s) && PoolGood(runs0, vm.lo, |mem0|) &&
      (forall pd :: 0 <= pd < USER ==> dst0[pd] == ZERO)
    requires vm.pool.spares >= CloneCost(mem0, s, 0)
    requires InDirLoop(mem0, runs0, PagesOf(mem0, s), vm.lo, vm.mem, vm.runs, dst0, dst[..], 0, 0)
    modifies vm`runs, vm`pool, vm`mem, dst
    ensures ok ==>
      vm.Valid() &&
      InDirLoop(mem0, runs0, PagesOf(mem0, s), vm.lo, vm.mem, vm.runs, dst0, dst[..], USER, USER_PAGES)
    ensures !ok ==> DirCleared(dst0, dst[..], USER) && held !! runs0.Keys && (vm.Valid() <==> FreeAbove(at.frees, held))
    ensures !ok && vm.Valid() ==> CloneUndone(mem0, runs0, s, vm.mem, vm.runs, dst0, dst[..], stub)
    ensures !ok ==> NewlyTaken(at, runs0) == held + Left(stub) && held !! Left(stub)
    ensures DirFate(old(vm.pool), mem0, s, 0) == FateOf(ok, if ok then vm.pool else at, stub)
  {
    ghost var v: nat := 0;
    var pd := 0;
    while pd < USER
      invariant 0 <= pd <= USER && vm.Valid() && src[..] == s && vm.pool.spares >= CloneCost(mem0, s, pd)
      invariant InDirLoop(mem0, runs0, PagesOf(mem0, s), vm.lo, vm.mem, vm.runs, dst0, dst[..], pd, v)
      invariant DirFate(vm.pool, mem0, s, pd) == DirFate(old(vm.pool), mem0, s, 0)
    {
      ghost var pool1, mem1, runs1, d := vm.pool, vm.mem, vm.runs, dst[..];
      assert d[pd] == dst0[pd] && src[pd] == s[pd];
      ghost var end := v + ENTRIES;
      ok, stub := CloneEntry(vm, dst, src[pd], pd, v, end, mem0, runs0, s, dst0);
      if !ok {
        at, held := Abandon(vm, dst, mem0, runs0, s, pool1, mem1, runs1, dst0, d, pd, v, stub);
        return;
      }
      pd, v := pd + 1, end;
    }
    ok, at, held, stub := true, vm.pool, {}, Nothing;
  }

  /** The fate that came to pass. */
  ghost function FateOf(ok: bool, pool: Pool, stub: Stub): Fate
  {
    if ok then Through(pool) else if stub.Nothing? then NoTable(pool) else NoRun(pool)
  }

  /** A clone that fails gives everything back: it fails at a table, with a hole above all it has taken. */
  ghost predicate AllGoesBack(fate: Fate, runs: map<nat, nat>)
  {
    fate.NoTable? && FreeAbove(fate.pool.frees, NewlyTaken(fate.pool, runs))
  }

  /** clone_process_pages. The child's directory starts with no user entries, and there are descriptors for all of it.
      How it will go is told by DirFate. A clone that runs out of frames frees what the child has: at is the pool at
      that point, held the child's runs and tables, stub the table that was not finished. */
  method CloneProcessPages(vm: Vm, dst: array<Word>, src: array<Word>)
    returns (ok: bool, ghost at: Pool, ghost held: set<nat>, ghost stub: Stub)
    requires vm.Valid() && dst.Length == ENTRIES && src.Length == ENTRIES && dst != src
    requires SpaceGood(vm.mem, vm.runs, src[..]) && (forall pd :: 0 <= pd < USER ==> dst[pd] == ZERO)
    requires vm.pool.spares >= CloneCost(vm.mem, src[..], 0)
    modifies vm`runs, vm`pool, vm`mem, dst
    ensures ok ==> vm.Valid() && Cloned(old(vm.mem), old(vm.runs), src[..], vm.mem, vm.runs, dst[..])
    ensures ok ==> forall pd :: USER <= pd < ENTRIES ==> dst[pd] == old(dst[pd])
    ensures DirFate(old(vm.pool), old(vm.mem), src[..], 0) == FateOf(ok, if ok then vm.pool else at, stub)
    ensures !ok ==>
      DirCleared(old(dst[..]), dst[..], USER) && held !! old(vm.runs).Keys &&
      (vm.Valid() <==> FreeAbove(at.frees, held))
    ensures !ok && vm.Valid() ==>
      CloneUndone(old(vm.mem), old(vm.runs), src[..], vm.mem, vm.runs, old(dst[..]), dst[..], stub)
    ensures !ok ==> NewlyTaken(at, old(vm.runs)) == held + Left(stub) && held !! Left(stub)
    ensures !ok ==>
      (vm.Valid() && vm.runs == old(vm.runs) <==>
       AllGoesBack(DirFate(old(vm.pool), old(vm.mem), src[..], 0), old(vm.runs)))
  {
    ghost var mem0, runs0, dst0, s := vm.mem, vm.runs, dst[..], src[..];
    DirStart(mem0, runs0, s, vm.lo, dst0);
    ok, at, held, stub := CloneTables(vm, dst, src, mem0, runs0, s, dst0);
    if ok { CloneDone(mem0, runs0, s, vm.lo, vm.mem, vm.runs, dst0, dst[..]); }
    if !ok && vm.Valid() { NothingLeft(runs0, vm.runs, stub); }
  }

  lemma NothingLeft(runs0: map<nat, nat>, runs: map<nat, nat>, stub: Stub)
    requires Extends(runs0, runs) && runs.Keys == runs0.Keys + Left(stub) && Left(stub) !! runs0.Keys
    ensures runs == runs0 <==> stub.Nothing?
  {
    if stub.Begun? { assert stub.table in Left(stub); }
  }

  lemma DirStart(mem: seq<Page>, runs: map<nat, nat>, src: seq<Word>, lo: nat, dst: seq<Word>)
    requires SpaceGood(mem, runs, src) && PoolGood(runs, lo, |mem|) && |dst| == ENTRIES &&
      forall pd :: 0 <= pd < USER ==> dst[pd] == ZERO
    ensures InDirLoop(mem, runs, PagesOf(mem, src), lo, mem, runs, dst, dst, 0, 0)
  {
    var child := PagesOf(mem, dst);
    forall u | 0 <= u < USER_PAGES ensures child[u] == ZERO { assert child[u] == Pt(mem, dst, u); }
    CloningStart(mem, runs, PagesOf(mem, src), lo, child);
    assert TableFrames(dst) == {};
  }

  /** The fail exit: the tables the child already has are freed. */
  method Abandon(vm: Vm, dst: array<Word>, ghost mem0: seq<Page>, ghost runs0: map<nat, nat>, ghost src: seq<Word>,
                 ghost pool1: Pool, ghost mem1: seq<Page>, ghost runs1: map<nat, nat>, ghost dst0: seq<Word>,
                 ghost d: seq<Word>, ghost pd: nat, ghost v: nat, ghost stub: Stub)
    returns (ghost at: Pool, ghost held: set<nat>)
    requires vm.Valid() && dst.Length == ENTRIES && SpaceGood(mem0, runs0, src) && dst[..] == d && pd < USER
    requires (forall q :: 0 <= q < USER && q < |dst0| ==> dst0[q] == ZERO)
    requires InDirLoop(mem0, runs0, PagesOf(mem0, src), vm.lo, mem1, runs1, dst0, d, pd, v)
    requires StoppedAt(mem0, src, pool1, mem1, runs1, pd, vm.mem, vm.pool, vm.runs, stub)
    modifies vm`runs, vm`pool, dst
    ensures at == old(vm.pool) && held !! runs0.Keys && (vm.Valid() <==> FreeAbove(at.frees, held))
    ensures NewlyTaken(at, runs0) == held + Left(stub) && held !! Left(stub)
    ensures DirCleared(dst0, dst[..], USER)
    ensures vm.Valid() ==> CloneUndone(mem0, runs0, src, vm.mem, vm.runs, dst0, dst[..], stub)
  {
    StoppedKeys(mem0, src, pool1, mem1, runs1, pd, vm.mem, vm.pool, vm.runs, stub);
    at, held := vm.pool, Keys(vm.mem, d);
    ghost var after := vm.runs - held;
    Abandoned(mem0, runs0, src, vm.lo, mem1, runs1, dst0, d, pd, v, vm.mem, vm.runs, held, stub, after);
    NewlyTakenIs(at, vm.runs, runs0);
    var freed := FreeProcessPages(vm, dst);
  }

  lemma Abandoned(mem0: seq<Page>, runs0: map<nat, nat>, src: seq<Word>, lo: nat, mem1: seq<Page>, runs1: map<nat, nat>,
                  dst0: seq<Word>, d: seq<Word>, pd: nat, v: nat, mem: seq<Page>, runs: map<nat, nat>, held: set<nat>,
                  stub: Stub, after: map<nat, nat>)
    requires SpaceGood(mem0, runs0, src) && Grows(mem1, runs1, mem, runs) && |d| == ENTRIES
    requires InDirLoop(mem0, runs0, PagesOf(mem0, src), lo, mem1, runs1, dst0, d, pd, v)
    requires runs.Keys == runs1.Keys + Left(stub) && Left(stub) !! runs1.Keys
    requires held == Keys(mem, d) && after == runs - held
    ensures SpaceGood(mem, runs, d) && held !! runs0.Keys
    ensures SpaceGood(mem, after, src) && PagesOf(mem, src) == PagesOf(mem0, src) && Grows(mem0, runs0, mem, after)
    ensures after.Keys == runs0.Keys + Left(stub) && Left(stub) !! runs0.Keys
    ensures runs.Keys - runs0.Keys == held + Left(stub) && held !! Left(stub)
  {
    StillGood(mem1, runs1, d, mem, runs);
    UndoneKeeps(mem0, runs0, src, mem1, runs1, d, mem, runs);
    LeftAfter(runs0.Keys, runs1.Keys, runs.Keys, held, Left(stub));
  }

  /** The used blocks that are not among runs. */
  ghost function NewlyTaken(pool: Pool, runs: map<nat, nat>): set<nat>
  {
    set u | u in pool.useds && u.base >= 0 && u.base !in runs :: u.base as nat
  }

  lemma NewlyTakenIs(pool: Pool, runs: map<nat, nat>, runs0: map<nat, nat>)
    requires Mirrors(runs, pool.useds)
    ensures NewlyTaken(pool, runs0) == runs.Keys - runs0.Keys
  {
    forall b | b in runs && b !in runs0 ensures b in NewlyTaken(pool, runs0) {
      assert HeapSpec.Region(b, runs[b]) in pool.useds;
    }
  }

  lemma LeftAfter(keys0: set<nat>, keys1: set<nat>, keys: set<nat>, held: set<nat>, left: set<nat>)
    requires keys1 == keys0 + held && held !! keys0 && keys == keys1 + left && left !! keys1
    ensures keys - held == keys0 + left && left !! keys0 && keys - keys0 == held + left && held !! left
  {}

  // ---- several spaces ----

  /** Spaces that hold different runs share no frame. */
  lemma ShareNoFrame(mem: seq<Page>, runs: map<nat, nat>, lo: nat, a: seq<Word>, b: seq<Word>, u: nat, v: nat)
    requires SpaceGood(mem, runs, a) && SpaceGood(mem, runs, b) && PoolGood(runs, lo, |mem|) &&
      Keys(mem, a) !! Keys(mem, b)
    requires u < USER_PAGES && v < USER_PAGES && Present(PagesOf(mem, a)[u]) && Present(PagesOf(mem, b)[v])
    ensures PagesOf(mem, a)[u].frame != PagesOf(mem, b)[v].frame
  {
    var p, q := PagesOf(mem, a), PagesOf(mem, b);
    assert Covered(p, runs, u) && Covered(q, runs, v);
    var h :| Covers(p, runs, h, u);
    var k :| Covers(q, runs, k, v);
    InRun(p, runs, h, u);
    InRun(q, runs, k, v);
    assert p[h].frame in HeadFrames(p) && q[k].frame in HeadFrames(q);
  }

  /** Freeing one space leaves a space with other runs whole. */
  lemma FreeKeepsOther(mem: seq<Page>, runs: map<nat, nat>, a: seq<Word>, b: seq<Word>)
    requires SpaceGood(mem, runs, a) && SpaceGood(mem, runs, b) && Keys(mem, a) !! Keys(mem, b)
    ensures SpaceGood(mem, runs - Keys(mem, a), b)
  {
    var p, runs' := PagesOf(mem, b), runs - Keys(mem, a);
    forall h | 0 <= h < |p| && Head(p[h]) ensures HeadGood(p, runs', h) {
      assert HeadGood(p, runs, h) && p[h].frame in HeadFrames(p);
    }
    forall v | 0 <= v < |p| && Present(p[v]) ensures Covered(p, runs', v) {
      assert Covered(p, runs, v);
      var h :| Covers(p, runs, h, v);
      assert p[h].frame in HeadFrames(p);
      assert Covers(p, runs', h, v);
    }
    forall pd | 0 <= pd < USER && b[pd] != ZERO ensures TableGood(b[pd], mem, runs') {
      assert TableGood(b[pd], mem, runs) && b[pd].frame in TableFrames(b);
    }
  }
}
