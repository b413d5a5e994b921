/** The allocation runs behind a process's page-table entries (page.c): every present page lies in
    one run of frames taken from the pool, whose first page is marked HEAD and the others CONT. */
module PageRuns {

  /** A 32-bit word of a page table or directory: frame number and the twelve flag bits. */
  datatype Word = Word(frame: nat, flags: bv12)

  const PRESENT: bv12 := 1
  const RW: bv12 := 2
  const US: bv12 := 4
  const PSE: bv12 := 128
  const HEAD: bv12 := 512
  const CONT: bv12 := 1024

  predicate Present(w: Word) { w.flags & PRESENT != 0 }
  predicate Cont(w: Word) { w.flags & CONT != 0 }
  predicate Head(w: Word) { Present(w) && !Cont(w) }

  /** The pool's allocated runs, first frame to length: inside the pool and disjoint. */
  ghost predicate PoolGood(runs: map<nat, nat>, lo: nat, hi: nat)
  {
    && (forall b :: b in runs ==> lo <= b && 0 < runs[b] && b + runs[b] <= hi)
    && (forall a, b :: a in runs && b in runs && a != b ==> a + runs[a] <= b || b + runs[b] <= a)
  }

  /** w is page k of the run at base: the first page is HEAD, the rest CONT. */
  ghost predicate InPlace(w: Word, base: nat, k: int)
  {
    Present(w) && w.frame == base + k && Cont(w) == (k > 0)
  }

  /** The n pages from h on map the n frames from base on. */
  ghost predicate RunAt(pages: seq<Word>, h: int, n: nat, base: nat)
  {
    0 <= h && h + n <= |pages| && forall j :: h <= j < h + n ==> InPlace(pages[j], base, j - h)
  }

  ghost predicate IsRun(ws: seq<Word>, base: nat) { RunAt(ws, 0, |ws|, base) }

  ghost predicate HeadGood(pages: seq<Word>, runs: map<nat, nat>, h: int)
    requires 0 <= h < |pages|
  {
    var b := pages[h].frame;
    b in runs && RunAt(pages, h, runs[b], b)
  }

  ghost predicate Covers(pages: seq<Word>, runs: map<nat, nat>, h: int, v: int)
  {
    0 <= h <= v < |pages| && Head(pages[h]) && pages[h].frame in runs && v < h + runs[pages[h].frame]
  }

  ghost predicate Covered(pages: seq<Word>, runs: map<nat, nat>, v: int)
  {
    exists h :: Covers(pages, runs, h, v)
  }

  /** Every head starts a whole run, every present page is in one, and no run is mapped twice. */
  ghost predicate RunsGood(pages: seq<Word>, runs: map<nat, nat>)
  {
    && (forall h :: 0 <= h < |pages| && Head(pages[h]) ==> HeadGood(pages, runs, h))
    && (forall v :: 0 <= v < |pages| && Present(pages[v]) ==> Covered(pages, runs, v))
    && (forall h, h' ::
         (0 <= h < |pages| && 0 <= h' < |pages| && Head(pages[h]) && Head(pages[h']) &&
          pages[h].frame == pages[h'].frame) ==> h == h')
  }

  /** The runs mapped by a list of pages. */
  ghost function HeadFrames(pages: seq<Word>): set<nat>
  {
    set h | 0 <= h < |pages| && Head(pages[h]) :: pages[h].frame
  }

  ghost predicate Absent(pages: seq<Word>, v: nat, n: nat)
  {
    v + n <= |pages| && forall k :: v <= k < v + n ==> !Present(pages[k])
  }

  /** Pages with ws in place from v on. */
  ghost function Mapped(pages: seq<Word>, v: nat, ws: seq<Word>): (r: seq<Word>)
    requires v + |ws| <= |pages|
    ensures |r| == |pages| && forall k :: 0 <= k < |pages| ==> r[k] == if v <= k < v + |ws| then ws[k - v] else pages[k]
  {
    pages[..v] + ws + pages[v + |ws|..]
  }

  /** A run has no page in an absent range. */
  lemma RunMisses(pages: seq<Word>, runs: map<nat, nat>, h: int, v: nat, n: nat)
    requires 0 <= h < |pages| && Head(pages[h]) && HeadGood(pages, runs, h) && Absent(pages, v, n) && n > 0
    ensures h + runs[pages[h].frame] <= v || v + n <= h
  {
    assert !Present(pages[v]);
  }

  lemma MappedHead(pages: seq<Word>, runs: map<nat, nat>, v: nat, ws: seq<Word>, base: nat, h: int)
    requires RunsGood(pages, runs) && Absent(pages, v, |ws|) && |ws| > 0 && IsRun(ws, base) && base !in runs
    requires 0 <= h < |pages| && Head(Mapped(pages, v, ws)[h])
    ensures HeadGood(Mapped(pages, v, ws), runs[base := |ws|], h)
    ensures h != v ==> Head(pages[h]) && pages[h].frame in runs && pages[h] == Mapped(pages, v, ws)[h]
  {
    if v <= h < v + |ws| {
      assert Mapped(pages, v, ws)[h] == ws[h - v];
    } else {
      RunMisses(pages, runs, h, v, |ws|);
    }
  }

  /** Mapping a fresh run over absent pages keeps every run whole, and adds exactly that one. */
  lemma MapRunKeeps(pages: seq<Word>, runs: map<nat, nat>, v: nat, ws: seq<Word>, base: nat)
    requires RunsGood(pages, runs) && Absent(pages, v, |ws|) && |ws| > 0 && IsRun(ws, base) && base !in runs
    ensures RunsGood(Mapped(pages, v, ws), runs[base := |ws|])
    ensures HeadFrames(Mapped(pages, v, ws)) == HeadFrames(pages) + {base}
  {
    var pages', runs' := Mapped(pages, v, ws), runs[base := |ws|];
    forall h | 0 <= h < |pages'| && Head(pages'[h])
      ensures HeadGood(pages', runs', h)
    {
      MappedHead(pages, runs, v, ws, base, h);
    }
    forall u | 0 <= u < |pages'| && Present(pages'[u])
      ensures Covered(pages', runs', u)
    {
      MappedCovered(pages, runs, v, ws, base, u);
    }
    forall h, h' | 0 <= h < |pages'| && 0 <= h' < |pages'| && Head(pages'[h]) && Head(pages'[h']) &&
    pages'[h].frame == pages'[h'].frame
      ensures h == h'
    {
      MappedOnce(pages, runs, v, ws, base, h, h');
    }
    MappedFrames(pages, runs, v, ws, base);
  }

  lemma MappedOnce(pages: seq<Word>, runs: map<nat, nat>, v: nat, ws: seq<Word>, base: nat, h: int, h': int)
    requires RunsGood(pages, runs) && Absent(pages, v, |ws|) && |ws| > 0 && IsRun(ws, base) && base !in runs
    requires 0 <= h < |pages| && 0 <= h' < |pages| && Head(Mapped(pages, v, ws)[h]) && Head(Mapped(pages, v, ws)[h'])
    requires Mapped(pages, v, ws)[h].frame == Mapped(pages, v, ws)[h'].frame
    ensures h == h'
  {
    MappedHead(pages, runs, v, ws, base, h);
    MappedHead(pages, runs, v, ws, base, h');
    assert Mapped(pages, v, ws)[v].frame == base;
  }

  lemma MappedCovered(pages: seq<Word>, runs: map<nat, nat>, v: nat, ws: seq<Word>, base: nat, u: int)
    requires RunsGood(pages, runs) && Absent(pages, v, |ws|) && |ws| > 0 && IsRun(ws, base) && base !in runs
    requires 0 <= u < |pages| && Present(Mapped(pages, v, ws)[u])
    ensures Covered(Mapped(pages, v, ws), runs[base := |ws|], u)
  {
    var pages', runs' := Mapped(pages, v, ws), runs[base := |ws|];
    if v <= u < v + |ws| {
      assert Covers(pages', runs', v, u);
    } else {
      assert Covered(pages, runs, u);
      var h :| Covers(pages, runs, h, u);
      assert pages'[h] == pages[h];
      assert Covers(pages', runs', h, u);
    }
  }

  lemma MappedFrames(pages: seq<Word>, runs: map<nat, nat>, v: nat, ws: seq<Word>, base: nat)
    requires RunsGood(pages, runs) && Absent(pages, v, |ws|) && |ws| > 0 && IsRun(ws, base) && base !in runs
    ensures HeadFrames(Mapped(pages, v, ws)) == HeadFrames(pages) + {base}
  {
    var pages' := Mapped(pages, v, ws);
    forall f | f in HeadFrames(pages') ensures f in HeadFrames(pages) + {base} {
      var h :| 0 <= h < |pages'| && Head(pages'[h]) && pages'[h].frame == f;
      MappedHead(pages, runs, v, ws, base, h);
    }
    forall f | f in HeadFrames(pages) + {base} ensures f in HeadFrames(pages') {
      if f == base {
        assert Head(pages'[v]) && pages'[v].frame == base;
      } else {
        var h :| 0 <= h < |pages| && Head(pages[h]) && pages[h].frame == f;
        assert pages'[h] == pages[h];
      }
    }
  }

  lemma InRun(pages: seq<Word>, runs: map<nat, nat>, h: int, v: int)
    requires RunsGood(pages, runs) && Covers(pages, runs, h, v)
    ensures pages[v].frame == pages[h].frame + (v - h) && pages[v].frame < pages[h].frame + runs[pages[h].frame]
  {
    assert HeadGood(pages, runs, h);
  }
}
