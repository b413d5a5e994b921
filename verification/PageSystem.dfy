/** Any number of address spaces over one pool, and any mix of mapping, cloning and freeing. */
module PageSystem {
  import opened PageRuns
  import opened PagePool
  import opened PageTables
  import opened PageSpaces
  import opened PageClone

  /** Memory, the pool with its runs, the first frame of the pool, and the directories. */
  datatype Sys = Sys(mem: seq<Page>, pool: Pool, runs: map<nat, nat>, lo: nat, dirs: seq<seq<Word>>)

  /** The pool is whole, every space is, and no two hold the same run or table. */
  ghost predicate Apart(s: Sys)
  {
    && Whole(s.pool, s.runs, s.lo, |s.mem|)
    && (forall i :: 0 <= i < |s.dirs| ==> SpaceGood(s.mem, s.runs, s.dirs[i]))
    && (forall i, j :: 0 <= i < |s.dirs| && 0 <= j < |s.dirs| && i != j ==>
         Keys(s.mem, s.dirs[i]) !! Keys(s.mem, s.dirs[j]))
  }

  datatype Event =
    | Set(i: nat, v: nat, n: nat, base: nat)   // a successful set_process_page on space i
    | Clone(i: nat)                            // a successful clone of space i; the child comes last
    | Free(i: nat)                             // free_process_pages on space i; its directory stays, empty
    | SetShort(i: nat)                         // a set_process_page that gets no frames
    | CloneShort(i: nat, stub: Stub)           // a clone that fails; its directory is dropped

  /** One call that leaves the pool whole, as SetProcessPage, CloneProcessPages and FreeProcessPages describe it. Map,
      Fork and Exit below show that calls with a hole above all they give back are such steps. */
  ghost predicate Step(s: Sys, ev: Event, s': Sys)
  {
    && s'.lo == s.lo && Whole(s'.pool, s'.runs, s'.lo, |s'.mem|)
    && match ev
       case Set(i, v, n, base) =>
         && i < |s.dirs| == |s'.dirs| && s'.dirs == s.dirs[i := s'.dirs[i]]
         && SetDone(s.mem, s.runs, s.dirs[i], v, n, base, s'.mem, s'.runs, s'.dirs[i])
       case Clone(i) =>
         && i < |s.dirs| && |s'.dirs| == |s.dirs| + 1 && s'.dirs[..|s.dirs|] == s.dirs
         && Cloned(s.mem, s.runs, s.dirs[i], s'.mem, s'.runs, s'.dirs[|s.dirs|])
       case Free(i) =>
         && i < |s.dirs| == |s'.dirs| && s'.dirs == s.dirs[i := s'.dirs[i]] && s'.mem == s.mem
         && FreeAbove(s.pool.frees, Keys(s.mem, s.dirs[i]))
         && s'.runs == s.runs - Keys(s.mem, s.dirs[i]) && DirCleared(s.dirs[i], s'.dirs[i], USER)
       case SetShort(i) =>
         s'.mem == s.mem && s'.runs == s.runs && s'.dirs == s.dirs
       case CloneShort(i, stub) =>
         && Grows(s.mem, s.runs, s'.mem, s'.runs) && s'.dirs == s.dirs
         && s'.runs.Keys == s.runs.Keys + Left(stub) && Left(stub) !! s.runs.Keys
  }

  lemma EntryStays(mem: seq<Page>, runs: map<nat, nat>, dir: seq<Word>, mem': seq<Page>, runs': map<nat, nat>, pd: nat)
    requires TablesGood(mem, runs, dir) && Extends(runs, runs') && |mem'| == |mem| && pd < USER && dir[pd] != ZERO
    requires forall f: nat :: f < |mem| && f in TableFrames(dir) ==> mem'[f] == mem[f]
    ensures TableGood(dir[pd], mem', runs') && mem'[dir[pd].frame] == mem[dir[pd].frame]
  {
    assert TableGood(dir[pd], mem, runs) && dir[pd].frame in TableFrames(dir);
  }

  lemma PageStays(mem: seq<Page>, runs: map<nat, nat>, dir: seq<Word>, mem': seq<Page>, runs': map<nat, nat>, v: nat)
    requires TablesGood(mem, runs, dir) && Extends(runs, runs') && |mem'| == |mem| && v < USER_PAGES
    requires forall f: nat :: f < |mem| && f in TableFrames(dir) ==> mem'[f] == mem[f]
    ensures Pt(mem', dir, v) == Pt(mem, dir, v)
  {
    if dir[v / ENTRIES] != ZERO { EntryStays(mem, runs, dir, mem', runs', v / ENTRIES); }
  }

  /** A space whose tables are not written keeps its pages. */
  lemma TablesStay(mem: seq<Page>, runs: map<nat, nat>, dir: seq<Word>, mem': seq<Page>, runs': map<nat, nat>)
    requires SpaceGood(mem, runs, dir) && Extends(runs, runs') && |mem'| == |mem| && Framed(mem')
    requires forall f: nat :: f < |mem| && f in TableFrames(dir) ==> mem'[f] == mem[f]
    ensures SpaceGood(mem', runs', dir) && PagesOf(mem', dir) == PagesOf(mem, dir)
  {
    forall pd | 0 <= pd < USER && dir[pd] != ZERO
      ensures TableGood(dir[pd], mem', runs')
    {
      EntryStays(mem, runs, dir, mem', runs', pd);
    }
    var p, q := PagesOf(mem', dir), PagesOf(mem, dir);
    forall v | 0 <= v < USER_PAGES ensures p[v] == q[v] { PageStays(mem, runs, dir, mem', runs', v); }
    assert p == q;
    RunsExtend(q, runs, runs');
  }

  lemma KeysHeld(mem: seq<Page>, runs: map<nat, nat>, dir: seq<Word>)
    requires SpaceGood(mem, runs, dir)
    ensures Keys(mem, dir) <= runs.Keys
  {
    HeadsHeld(PagesOf(mem, dir), runs);
    TablesHeld(mem, runs, dir);
  }

  lemma OtherSpaceOnSet(s: Sys, ev: Event, s': Sys, j: nat)
    requires Apart(s) && ev.Set? && Step(s, ev, s') && j < |s.dirs| && j != ev.i
    ensures SpaceGood(s'.mem, s'.runs, s.dirs[j]) && PagesOf(s'.mem, s.dirs[j]) == PagesOf(s.mem, s.dirs[j])
    ensures Keys(s'.mem, s.dirs[j]) !! Keys(s'.mem, s'.dirs[ev.i])
  {
    var a, a', b := s.dirs[ev.i], s'.dirs[ev.i], s.dirs[j];
    KeysHeld(s.mem, s.runs, b);
    TablesApart(TableFrames(b), Keys(s.mem, b), s.runs.Keys, TableFrames(a), Keys(s.mem, a), TableFrames(a'));
    TablesStay(s.mem, s.runs, b, s'.mem, s'.runs);
  }

  lemma TablesApart(tb: set<nat>, kb: set<nat>, held: set<nat>, ta: set<nat>, ka: set<nat>, ta': set<nat>)
    requires tb <= kb <= held && ta <= ka && ka !! kb && (ta' - ta) !! held
    ensures tb !! ta'
  {}

  lemma OtherSpaceOnClone(s: Sys, ev: Event, s': Sys, j: nat)
    requires Apart(s) && ev.Clone? && Step(s, ev, s') && j < |s.dirs|
    ensures SpaceGood(s'.mem, s'.runs, s.dirs[j]) && PagesOf(s'.mem, s.dirs[j]) == PagesOf(s.mem, s.dirs[j])
    ensures Keys(s'.mem, s.dirs[j]) !! Keys(s'.mem, s'.dirs[|s.dirs|])
  {
    KeysHeld(s.mem, s.runs, s.dirs[j]);
    StillGood(s.mem, s.runs, s.dirs[j], s'.mem, s'.runs);
  }

  lemma EmptySpace(mem: seq<Page>, runs: map<nat, nat>, dir: seq<Word>)
    requires |dir| == ENTRIES && Framed(mem) && forall pd :: 0 <= pd < USER ==> dir[pd] == ZERO
    ensures SpaceGood(mem, runs, dir) && Keys(mem, dir) == {}
  {
    var p := PagesOf(mem, dir);
    forall v | 0 <= v < USER_PAGES ensures p[v] == ZERO { assert p[v] == Pt(mem, dir, v); }
    assert HeadFrames(p) == {} && TableFrames(dir) == {};
  }

  /** What an event keeps: the spaces stay apart, and only the target's pages may change. */
  lemma StepKeeps(s: Sys, ev: Event, s': Sys)
    requires Apart(s) && Step(s, ev, s')
    ensures Apart(s')
    ensures forall j :: 0 <= j < |s.dirs| && (j != ev.i || !(ev.Set? || ev.Free?)) ==>
      PagesOf(s'.mem, s'.dirs[j]) == PagesOf(s.mem, s.dirs[j])
  {
    match ev
    case Set(i, v, n, base) => SetKeeps(s, ev, s');
    case Clone(i) => CloneKeeps(s, ev, s');
    case Free(i) => FreeKeeps(s, ev, s');
    case SetShort(i) =>
    case CloneShort(i, stub) => CloneShortKeeps(s, ev, s');
  }

  lemma CloneShortKeeps(s: Sys, ev: Event, s': Sys)
    requires Apart(s) && ev.CloneShort? && Step(s, ev, s')
    ensures Apart(s') && forall j :: 0 <= j < |s.dirs| ==> PagesOf(s'.mem, s'.dirs[j]) == PagesOf(s.mem, s.dirs[j])
  {
    forall j | 0 <= j < |s.dirs|
      ensures SpaceGood(s'.mem, s'.runs, s.dirs[j]) && PagesOf(s'.mem, s.dirs[j]) == PagesOf(s.mem, s.dirs[j])
      ensures Keys(s'.mem, s.dirs[j]) == Keys(s.mem, s.dirs[j])
    {
      StillGood(s.mem, s.runs, s.dirs[j], s'.mem, s'.runs);
    }
  }

  lemma SetKeeps(s: Sys, ev: Event, s': Sys)
    requires Apart(s) && ev.Set? && Step(s, ev, s')
    ensures Apart(s') && forall j :: 0 <= j < |s.dirs| && j != ev.i ==>
      PagesOf(s'.mem, s'.dirs[j]) == PagesOf(s.mem, s.dirs[j])
  {
    forall j | 0 <= j < |s.dirs| && j != ev.i
      ensures s'.dirs[j] == s.dirs[j] && SpaceGood(s'.mem, s'.runs, s.dirs[j]) &&
        PagesOf(s'.mem, s.dirs[j]) == PagesOf(s.mem, s.dirs[j])
      ensures Keys(s'.mem, s.dirs[j]) !! Keys(s'.mem, s'.dirs[ev.i])
    {
      OtherSpaceOnSet(s, ev, s', j);
    }
  }

  lemma CloneKeeps(s: Sys, ev: Event, s': Sys)
    requires Apart(s) && ev.Clone? && Step(s, ev, s')
    ensures Apart(s') && forall j :: 0 <= j < |s.dirs| ==> PagesOf(s'.mem, s'.dirs[j]) == PagesOf(s.mem, s.dirs[j])
  {
    forall j | 0 <= j < |s.dirs|
      ensures s'.dirs[j] == s.dirs[j] && SpaceGood(s'.mem, s'.runs, s.dirs[j]) &&
        PagesOf(s'.mem, s.dirs[j]) == PagesOf(s.mem, s.dirs[j])
      ensures Keys(s'.mem, s.dirs[j]) !! Keys(s'.mem, s'.dirs[|s.dirs|])
    {
      assert s'.dirs[..|s.dirs|][j] == s'.dirs[j];
      OtherSpaceOnClone(s, ev, s', j);
    }
  }

  lemma FreeKeeps(s: Sys, ev: Event, s': Sys)
    requires Apart(s) && ev.Free? && Step(s, ev, s')
    ensures Apart(s') && forall j :: 0 <= j < |s.dirs| && j != ev.i ==>
      PagesOf(s'.mem, s'.dirs[j]) == PagesOf(s.mem, s.dirs[j])
  {
    EmptySpace(s'.mem, s'.runs, s'.dirs[ev.i]);
    forall j | 0 <= j < |s.dirs| && j != ev.i ensures s'.dirs[j] == s.dirs[j] && SpaceGood(s'.mem, s'.runs, s.dirs[j]) {
      FreeKeepsOther(s.mem, s.runs, s.dirs[ev.i], s.dirs[j]);
    }
  }

  // ---- the calls are steps ----

  ghost predicate Directories(dirs: seq<array<Word>>)
  {
    && (forall i :: 0 <= i < |dirs| ==> dirs[i].Length == ENTRIES)
    && (forall i, j :: 0 <= i < j < |dirs| ==> dirs[i] != dirs[j])
  }

  ghost function Contents(dirs: seq<array<Word>>): (r: seq<seq<Word>>)
    reads dirs
    ensures |r| == |dirs| && forall i :: 0 <= i < |dirs| ==> r[i] == dirs[i][..]
  {
    seq(|dirs|, i requires 0 <= i < |dirs| reads dirs => dirs[i][..])
  }

  ghost function View(vm: Vm, dirs: seq<array<Word>>): Sys
    reads vm, dirs
  {
    Sys(vm.mem, vm.pool, vm.runs, vm.lo, Contents(dirs))
  }

  /** set_process_page on space i: a step if it gets all its frames and tables, or none at all. */
  method Map(vm: Vm, dirs: seq<array<Word>>, i: nat, start: nat, size: nat)
    returns (ok: bool, base: nat, ghost m: nat)
    requires vm.Valid() && Directories(dirs) && Apart(View(vm, dirs)) && i < |dirs|
    requires Absent(PagesOf(vm.mem, dirs[i][..]), start / PAGE, NeedPages(start, size))
    requires var v, n := start / PAGE, NeedPages(start, size);
      vm.pool.spares > MissingTables(dirs[i][..], v / ENTRIES, LastTable(v, n))
    modifies vm`runs, vm`pool, vm`mem, dirs[i]
    ensures vm.Valid()
    ensures base == 0 ==> !ok && Step(old(View(vm, dirs)), SetShort(i), View(vm, dirs))
    ensures ok && m > 0 ==> Step(old(View(vm, dirs)), Set(i, start / PAGE, m, base), View(vm, dirs))
  {
    ghost var was := View(vm, dirs);
    ok, base, m := SetProcessPage(vm, dirs[i], start, size);
    ghost var now := View(vm, dirs);
    OneChanged(was.dirs, now.dirs, i);
  }

  lemma OneChanged(a: seq<seq<Word>>, b: seq<seq<Word>>, i: nat)
    requires i < |a| == |b| && forall j :: 0 <= j < |a| && j != i ==> b[j] == a[j]
    ensures b == a[i := b[i]] && (b[i] == a[i] ==> b == a)
  {}

  /** free_process_pages on space i: a step exactly if a hole lies above all the space holds. */
  method Exit(vm: Vm, dirs: seq<array<Word>>, i: nat) returns (ok: bool)
    requires vm.Valid() && Directories(dirs) && Apart(View(vm, dirs)) && i < |dirs|
    modifies vm`runs, vm`pool, dirs[i]
    ensures vm.Valid() <==> old(FreeAbove(vm.pool.frees, Keys(vm.mem, dirs[i][..])))
    ensures vm.Valid() ==> Step(old(View(vm, dirs)), Free(i), View(vm, dirs))
  {
    ghost var was := View(vm, dirs);
    ok := FreeProcessPages(vm, dirs[i]);
    ghost var now := View(vm, dirs);
    OneChanged(was.dirs, now.dirs, i);
  }

  /** clone_process_pages of space i into a new directory: a step if it succeeds, and also if it fails and the pool is
      whole afterwards. */
  method Fork(vm: Vm, dirs: seq<array<Word>>, i: nat) returns (ok: bool, child: array<Word>, ghost stub: Stub)
    requires vm.Valid() && Directories(dirs) && Apart(View(vm, dirs)) && i < |dirs|
    requires vm.pool.spares >= CloneCost(vm.mem, dirs[i][..], 0)
    modifies vm`runs, vm`pool, vm`mem
    ensures ok ==> vm.Valid() && Step(old(View(vm, dirs)), Clone(i), View(vm, dirs + [child]))
    ensures !ok && vm.Valid() ==> Step(old(View(vm, dirs)), CloneShort(i, stub), View(vm, dirs))
  {
    ghost var was := View(vm, dirs);
    child := new Word[ENTRIES](k => ZERO);
    ghost var at, held;
    ok, at, held, stub := CloneProcessPages(vm, child, dirs[i]);
    ghost var now := Contents(dirs);
    assert now == was.dirs;
    assert Contents(dirs + [child])[..|dirs|] == now;
  }

  // ---- whole runs ----

  ghost predicate History(states: seq<Sys>, events: seq<Event>)
  {
    |states| == |events| + 1 && forall k :: 0 <= k < |events| ==> Step(states[k], events[k], states[k + 1])
  }

  /** Over any history the spaces stay apart. */
  lemma {:induction false} HistoryKeeps(states: seq<Sys>, events: seq<Event>, k: nat)
    requires History(states, events) && Apart(states[0]) && k < |states|
    ensures Apart(states[k])
  {
    if k > 0 {
      HistoryKeeps(states, events, k - 1);
      StepKeeps(states[k - 1], events[k - 1], states[k]);
    }
  }

  /** A clone is exact at any point of any history: same pages, same access, same contents, on frames of its own. */
  lemma CloneIsExact(states: seq<Sys>, events: seq<Event>, k: nat, u: nat, v: nat)
    requires History(states, events) && Apart(states[0]) && k < |events| && events[k].Clone? && u < USER_PAGES &&
      v < USER_PAGES
    ensures var s, s' := states[k], states[k + 1]; var i := events[k].i;
      var parent, child := PagesOf(s'.mem, s'.dirs[i]), PagesOf(s'.mem, s'.dirs[|s.dirs|]);
      parent == PagesOf(s.mem, s.dirs[i]) && Copied(s'.mem, parent[v], s'.mem, child[v]) &&
      (Present(parent[u]) && Present(child[v]) ==> parent[u].frame != child[v].frame)
  {
    var s, s', i := states[k], states[k + 1], events[k].i;
    HistoryKeeps(states, events, k);
    HistoryKeeps(states, events, k + 1);
    StepKeeps(s, events[k], s');
    var parent, child := PagesOf(s'.mem, s'.dirs[i]), PagesOf(s'.mem, s'.dirs[|s.dirs|]);
    assert s'.dirs[..|s.dirs|][i] == s'.dirs[i];
    if Present(parent[u]) &&
      Present(child[v]) { ShareNoFrame(s'.mem, s'.runs, s'.lo, s'.dirs[i], s'.dirs[|s.dirs|], u, v); }
    CopiedNow(s, s', i, v);
  }

  lemma CopiedNow(s: Sys, s': Sys, i: nat, v: nat)
    requires Apart(s) && Step(s, Clone(i), s') && v < USER_PAGES
    ensures Copied(s'.mem, PagesOf(s.mem, s.dirs[i])[v], s'.mem, PagesOf(s'.mem, s'.dirs[|s.dirs|])[v])
  {
    var parent := PagesOf(s.mem, s.dirs[i]);
    assert Copied(s.mem, parent[v], s'.mem, PagesOf(s'.mem, s'.dirs[|s.dirs|])[v]);
    if Present(parent[v]) { HeldUnchanged(s.mem, s.runs, s.dirs[i], s'.mem, s'.runs, v); }
  }

  lemma HeldUnchanged(mem: seq<Page>, runs: map<nat, nat>, dir: seq<Word>, mem': seq<Page>, runs': map<nat, nat>,
                      v: nat)
    requires SpaceGood(mem, runs, dir) && Grows(mem, runs, mem', runs') && v < USER_PAGES &&
      Present(PagesOf(mem, dir)[v])
    requires PagesOf(mem, dir)[v].frame < |mem|
    ensures mem'[PagesOf(mem, dir)[v].frame] == mem[PagesOf(mem, dir)[v].frame]
  {
    var pages := PagesOf(mem, dir);
    assert Covered(pages, runs, v);
    var h :| Covers(pages, runs, h, v);
    InRun(pages, runs, h, v);
    var b, f := pages[h].frame, pages[v].frame;
    assert b in runs && !(b + runs[b] <= f || f + 1 <= b);
    assert Held(runs, f);
  }
}
