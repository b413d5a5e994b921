/** fs.c and pipe.c: file objects shared by descriptor tables, and pipes behind them. */
module FileTables {
  import opened Digits
  import opened PipeRing

  const SLOTS := 32       // FILEDESC_MAX

  datatype Kind = ReadEnd | WriteEnd | Plain

  datatype File = File(refs: int, kind: Kind, pipe: int)

  /** A descriptor table; 0 is the null pointer. */
  type Table = seq<int>

  // ---- counting the slots that name a file ----

  ghost function Refs(ts: seq<Table>, f: int): nat
  {
    if ts == [] then 0 else multiset(ts[0])[f] + Refs(ts[1..], f)
  }

  lemma {:induction false} RefsUpdate(ts: seq<Table>, t: nat, row: Table, f: int)
    requires t < |ts|
    ensures Refs(ts[t := row], f) == Refs(ts, f) - multiset(ts[t])[f] + multiset(row)[f]
  {
    if t == 0 {
      assert ts[t := row][1..] == ts[1..];
    } else {
      assert ts[t := row][1..] == ts[1..][t - 1 := row];
      RefsUpdate(ts[1..], t - 1, row, f);
    }
  }

  ghost function One(b: bool): int { if b then 1 else 0 }

  /** Table t with descriptor fd set to x. */
  ghost function Placed(ts: seq<Table>, t: nat, fd: nat, x: int): seq<Table>
    requires t < |ts| && fd < |ts[t]|
  {
    ts[t := ts[t][fd := x]]
  }

  lemma RefsPlaced(ts: seq<Table>, t: nat, fd: nat, x: int, f: int)
    requires t < |ts| && fd < |ts[t]|
    ensures Refs(Placed(ts, t, fd, x), f) == Refs(ts, f) - One(ts[t][fd] == f) + One(x == f)
  {
    RefsUpdate(ts, t, ts[t][fd := x], f);
  }

  lemma {:induction false} RefsPositive(ts: seq<Table>, t: nat, fd: nat)
    requires t < |ts| && fd < |ts[t]|
    ensures Refs(ts, ts[t][fd]) > 0
  {
    if t == 0 {
      assert ts[0][fd] in multiset(ts[0]);
    } else {
      assert ts[1..][t - 1] == ts[t];
      RefsPositive(ts[1..], t - 1, fd);
    }
  }

  // ---- the invariant ----

  /** Each file's count is the number of slots naming it, plus one for a reference just taken; no other file is
      named. */
  ghost predicate CountGood(files: map<int, File>, ts: seq<Table>, owed: int)
  {
    && 0 !in files && (owed == 0 || owed in files)
    && forall f: int {:trigger Refs(ts, f)} :: f != 0 ==>
         if f in files then files[f].refs == Refs(ts, f) + One(f == owed) && files[f].refs > 0 else Refs(ts, f) == 0
  }

  ghost predicate TablesShaped(ts: seq<Table>) { forall t :: 0 <= t < |ts| ==> |ts[t]| == SLOTS }

  ghost predicate HasEnd(files: map<int, File>, kind: Kind, p: int)
  {
    exists f :: f in files && files[f].kind == kind && files[f].pipe == p
  }

  ghost predicate PipeGood(files: map<int, File>, p: int, pipe: Pipe)
  {
    && RingGood(pipe) && pipe.readOpen == One(HasEnd(files, ReadEnd, p))
    && pipe.writeOpen == One(HasEnd(files, WriteEnd, p))
    && pipe.readOpen + pipe.writeOpen > 0
  }

  /** Every end belongs to a living pipe, a pipe has at most one file per end, and its open counts say which ends
      live. */
  ghost predicate EndsGood(files: map<int, File>, pipes: map<int, Pipe>)
  {
    && (forall f :: f in files && files[f].kind != Plain ==> files[f].pipe in pipes)
    && (forall f, g ::
         (f in files && g in files && files[f].kind != Plain &&
          files[f].kind == files[g].kind && files[f].pipe == files[g].pipe) ==> f == g)
    && (forall p :: p in pipes ==> PipeGood(files, p, pipes[p]))
  }

  /** Every pipe ever made either lives or has been freed, exactly once; numbers are not reused. */
  ghost predicate FreedGood(files: map<int, File>, pipes: map<int, Pipe>, made: set<int>, freed: seq<int>, next: int)
  {
    && (forall i, j :: 0 <= i < j < |freed| ==> freed[i] != freed[j])
    && (forall p :: p in freed ==> p !in pipes) && (forall p :: p in made <==> p in pipes || p in freed)
    && (forall p :: p in made ==> p < next) && (forall f :: f in files ==> f < next)
  }

  /** From files on, no number is reused: what is in files' was there with the same kind and pipe, or is new. */
  ghost predicate Lasting(files: map<int, File>, next: int, files': map<int, File>, next': int)
  {
    && next <= next'
    && forall f :: f in files' ==>
         f >= next || (f in files && files'[f].kind == files[f].kind && files'[f].pipe == files[f].pipe)
  }

  /** What went into a pipe is what has come out followed by what is waiting. */
  ghost predicate LogGood(pipes: map<int, Pipe>, sent: map<int, Bytes>, got: map<int, Bytes>)
  {
    forall p :: p in pipes ==> p in sent && p in got && RingGood(pipes[p]) && sent[p] == got[p] + Waiting(pipes[p])
  }

  // ---- references ----

  lemma GetOwes(files: map<int, File>, ts: seq<Table>, f: int)
    requires CountGood(files, ts, 0) && f in files
    ensures CountGood(files[f := files[f].(refs := files[f].refs + 1)], ts, f)
  {}

  lemma NewOwes(files: map<int, File>, ts: seq<Table>, f: int, file: File)
    requires CountGood(files, ts, 0) && f !in files && f != 0 && file.refs == 1
    ensures CountGood(files[f := file], ts, f)
  {}

  lemma PlaceSettles(files: map<int, File>, ts: seq<Table>, t: nat, fd: nat, f: int)
    requires CountGood(files, ts, f) && f != 0 && t < |ts| && fd < |ts[t]| && ts[t][fd] == 0
    ensures CountGood(files, Placed(ts, t, fd, f), 0)
  {
    var ts' := Placed(ts, t, fd, f);
    forall g: int {:trigger Refs(ts', g)} | g != 0
      ensures Refs(ts', g) == Refs(ts, g) + One(g == f)
    {
      RefsPlaced(ts, t, fd, f, g);
    }
  }

  lemma ClearOwes(files: map<int, File>, ts: seq<Table>, t: nat, fd: nat)
    requires CountGood(files, ts, 0) && t < |ts| && fd < |ts[t]| && ts[t][fd] != 0
    ensures ts[t][fd] in files && CountGood(files, Placed(ts, t, fd, 0), ts[t][fd])
  {
    RefsPositive(ts, t, fd);
    var ts', f := Placed(ts, t, fd, 0), ts[t][fd];
    forall g: int {:trigger Refs(ts', g)} | g != 0
      ensures Refs(ts', g) == Refs(ts, g) - One(g == f)
    {
      RefsPlaced(ts, t, fd, 0, g);
    }
  }

  lemma PutSettles(files: map<int, File>, ts: seq<Table>, f: int)
    requires CountGood(files, ts, f) && f != 0
    ensures files[f].refs >= 1
    ensures files[f].refs > 1 ==> CountGood(files[f := files[f].(refs := files[f].refs - 1)], ts, 0)
    ensures files[f].refs == 1 ==> CountGood(files - {f}, ts, 0)
  {
    assert files[f].refs == Refs(ts, f) + 1;
  }

  // ---- ends ----

  lemma SameEnds(files: map<int, File>, pipes: map<int, Pipe>, f: int, n: int)
    requires EndsGood(files, pipes) && f in files
    ensures EndsGood(files[f := files[f].(refs := n)], pipes)
  {
    var files' := files[f := files[f].(refs := n)];
    forall p | p in pipes ensures PipeGood(files', p, pipes[p]) {
      assert PipeGood(files, p, pipes[p]);
      SameHasEnd(files, f, n, ReadEnd, p);
      SameHasEnd(files, f, n, WriteEnd, p);
    }
  }

  lemma SameHasEnd(files: map<int, File>, f: int, n: int, kind: Kind, p: int)
    requires f in files
    ensures HasEnd(files[f := files[f].(refs := n)], kind, p) == HasEnd(files, kind, p)
  {
    var files' := files[f := files[f].(refs := n)];
    if HasEnd(files, kind, p) {
      var g :| g in files && files[g].kind == kind && files[g].pipe == p;
      assert g in files' && files'[g].kind == kind && files'[g].pipe == p;
    }
    if HasEnd(files', kind, p) {
      var g :| g in files' && files'[g].kind == kind && files'[g].pipe == p;
      assert g in files && files[g].kind == kind && files[g].pipe == p;
    }
  }

  /** Without file f: an end of f's kind is gone from f's pipe, everything else is as it was. */
  lemma EndGone(files: map<int, File>, pipes: map<int, Pipe>, f: int, kind: Kind, p: int)
    requires EndsGood(files, pipes) && f in files && kind != Plain
    ensures HasEnd(files - {f}, kind, p) == (HasEnd(files, kind, p) && !(files[f].kind == kind && files[f].pipe == p))
  {
    if HasEnd(files, kind, p) && !(files[f].kind == kind && files[f].pipe == p) {
      var g :| g in files && files[g].kind == kind && files[g].pipe == p;
      assert g in files - {f};
    }
    if HasEnd(files - {f}, kind, p) {
      var g :| g in files - {f} && (files - {f})[g].kind == kind && (files - {f})[g].pipe == p;
      assert g in files && files[g] == (files - {f})[g];
    }
  }

  /** The counting part of pipe_close. */
  function EndClosed(pipe: Pipe, kind: Kind): Pipe
  {
    pipe.(readOpen := if kind == ReadEnd && pipe.readOpen > 0 then pipe.readOpen - 1 else pipe.readOpen,
          writeOpen := if kind == WriteEnd && pipe.writeOpen > 0 then pipe.writeOpen - 1 else pipe.writeOpen)
  }

  predicate BothClosed(pipe: Pipe) { pipe.readOpen == 0 && pipe.writeOpen == 0 }

  /** The pipes after pipe_close on an end of p: p with one end less, or gone. */
  function PipesAfter(pipes: map<int, Pipe>, p: int, kind: Kind): map<int, Pipe>
    requires p in pipes
  {
    var pipe := EndClosed(pipes[p], kind);
    if BothClosed(pipe) then pipes - {p} else pipes[p := pipe]
  }

  lemma OtherPipe(files: map<int, File>, pipes: map<int, Pipe>, f: int, p: int)
    requires EndsGood(files, pipes) && f in files && p in pipes && (files[f].kind == Plain || files[f].pipe != p)
    ensures PipeGood(files - {f}, p, pipes[p])
  {
    EndGone(files, pipes, f, ReadEnd, p);
    EndGone(files, pipes, f, WriteEnd, p);
  }

  lemma RemovePlain(files: map<int, File>, pipes: map<int, Pipe>, f: int)
    requires EndsGood(files, pipes) && f in files && files[f].kind == Plain
    ensures EndsGood(files - {f}, pipes)
  {
    forall p | p in pipes ensures PipeGood(files - {f}, p, pipes[p]) { OtherPipe(files, pipes, f, p); }
  }

  /** When the last reference to an end goes, the pipe loses that end, or is freed if it was the last. */
  lemma RemoveEnd(files: map<int, File>, pipes: map<int, Pipe>, f: int)
    requires EndsGood(files, pipes) && f in files && files[f].kind != Plain
    ensures files[f].pipe in pipes && EndsGood(files - {f}, PipesAfter(pipes, files[f].pipe, files[f].kind))
  {
    var p, kind := files[f].pipe, files[f].kind;
    var files', pipes' := files - {f}, PipesAfter(pipes, p, kind);
    EndGone(files, pipes, f, ReadEnd, p);
    EndGone(files, pipes, f, WriteEnd, p);
    assert PipeGood(files, p, pipes[p]);
    assert HasEnd(files, kind, p);
    forall g | g in files' && files'[g].kind != Plain ensures files'[g].pipe in pipes' {
      if files'[g].pipe == p { assert HasEnd(files', files'[g].kind, p); }
    }
    forall q | q in pipes' ensures PipeGood(files', q, pipes'[q]) {
      if q != p { OtherPipe(files, pipes, f, q); }
    }
  }

  /** A pipe is freed only when neither end is left. */
  lemma FreedWhenBothGone(files: map<int, File>, pipes: map<int, Pipe>, f: int)
    requires EndsGood(files, pipes) && f in files && files[f].kind != Plain
    ensures var p := files[f].pipe; p in pipes && (BothClosed(EndClosed(pipes[p], files[f].kind)) <==>
      !HasEnd(files - {f}, ReadEnd, p) && !HasEnd(files - {f}, WriteEnd, p))
  {
    var p := files[f].pipe;
    EndGone(files, pipes, f, ReadEnd, p);
    EndGone(files, pipes, f, WriteEnd, p);
    assert PipeGood(files, p, pipes[p]) && HasEnd(files, files[f].kind, p);
  }

  lemma FreedOnce(files: map<int, File>, pipes: map<int, Pipe>, made: set<int>, freed: seq<int>, next: int, f: int,
                  p: int)
    requires FreedGood(files, pipes, made, freed, next) && p in pipes
    ensures FreedGood(files - {f}, pipes - {p}, made, freed + [p], next)
  {}

  lemma LogKeeps(pipes: map<int, Pipe>, sent: map<int, Bytes>, got: map<int, Bytes>, p: int, kind: Kind)
    requires LogGood(pipes, sent, got) && p in pipes
    ensures LogGood(PipesAfter(pipes, p, kind), sent, got)
  {
    var pipe := EndClosed(pipes[p], kind);
    assert RingGood(pipe) && Waiting(pipe) == Waiting(pipes[p]);
  }
}
