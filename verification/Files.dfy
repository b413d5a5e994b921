/** The calls of fs.c and pipe.c, over any number of descriptor tables. */
module Files {
  import opened Digits
  import opened PipeRing
  import opened FileTables

  /** files_find_free_fd: the first free descriptor from start on, then from the beginning. */
  method FindFree(row: Table, start: int) returns (fd: int)
    requires |row| == SLOTS
    ensures fd == -1 ==> forall k :: 0 <= k < SLOTS ==> row[k] != 0
    ensures fd != -1 ==> 0 <= fd < SLOTS && row[fd] == 0
    ensures fd != -1 && fd >= start ==> forall k :: 0 <= k < fd && k >= start ==> row[k] != 0
    ensures fd != -1 && fd < start ==> forall k :: 0 <= k < SLOTS && (k < fd || k >= start) ==> row[k] != 0
  {
    var from := if start < 0 then 0 else start;
    fd := from;
    while fd < SLOTS
      invariant from <= fd && forall k :: from <= k < fd && k < SLOTS ==> row[k] != 0
    {
      if row[fd] == 0 { return; }
      fd := fd + 1;
    }
    fd := 0;
    while fd < from && fd < SLOTS
      invariant 0 <= fd && forall k :: 0 <= k < fd && k < SLOTS ==> row[k] != 0
    {
      if row[fd] == 0 { return; }
      fd := fd + 1;
    }
    fd := -1;
  }

  class Kernel {
    var files: map<int, File>
    var pipes: map<int, Pipe>
    var tables: seq<Table>
    var next: int                       // numbers for new objects
    ghost var made: set<int>            // every pipe so far
    ghost var freed: seq<int>           // pipes given back, in order
    ghost var sent: map<int, Bytes>     // accepted by each pipe
    ghost var got: map<int, Bytes>      // read from each pipe

    /** A system of n empty descriptor tables. */
    constructor (n: nat)
      ensures Valid() && |tables| == n && files == map[] && pipes == map[] && made == {} && freed == []
    {
      files, pipes, next := map[], map[], 1;
      tables := seq(n, t => seq(SLOTS, k => 0));
      made, freed, sent, got := {}, [], map[], map[];
      new;
      NoRefs(tables);
    }

    /** Everything holds once the tables are ts and the reference owed to one file is accounted for. */
    ghost predicate ValidFor(ts: seq<Table>, owed: int)
      reads this
    {
      && CountGood(files, ts, owed) && TablesShaped(ts) && EndsGood(files, pipes)
      && FreedGood(files, pipes, made, freed, next) && LogGood(pipes, sent, got) && sent.Keys <= made
      && got.Keys <= made && next > 0
    }

    ghost predicate Valid()
      reads this
    {
      ValidFor(tables, 0)
    }

    /** file_get */
    method Get(f: int, ghost ts: seq<Table>)
      requires ValidFor(ts, 0) && f in files
      modifies `files
      ensures ValidFor(ts, f) && files == old(files)[f := old(files)[f].(refs := old(files)[f].refs + 1)]
    {
      GetOwes(files, ts, f);
      SameEnds(files, pipes, f, files[f].refs + 1);
      files := files[f := files[f].(refs := files[f].refs + 1)];
    }

    /** file_put, with pipe_close for an end whose last reference goes. */
    method Put(f: int, ghost ts: seq<Table>)
      requires ValidFor(ts, f) && f != 0
      modifies `files, `pipes, `freed
      ensures ValidFor(ts, 0) && Dropped(old(files), old(pipes), old(freed), files, pipes, freed, f)
    {
      var file := files[f];
      PutSettles(files, ts, f);
      if file.refs > 1 {
        SameEnds(files, pipes, f, file.refs - 1);
        files := files[f := file.(refs := file.refs - 1)];
        return;
      }
      if file.kind != Plain {
        PipeClose(f, ts);
      } else {
        RemovePlain(files, pipes, f);
        files := files - {f};
      }
    }

    /** pipe_close, and the file object with it. */
    method PipeClose(f: int, ghost ts: seq<Table>)
      requires ValidFor(ts, f) && f != 0 && files[f].kind != Plain && files[f].refs == 1
      modifies `files, `pipes, `freed
      ensures ValidFor(ts, 0) && Dropped(old(files), old(pipes), old(freed), files, pipes, freed, f)
    {
      var p, kind := files[f].pipe, files[f].kind;
      PutSettles(files, ts, f);
      RemoveEnd(files, pipes, f);
      LogKeeps(pipes, sent, got, p, kind);
      var pipe := EndClosed(pipes[p], kind);
      if BothClosed(pipe) {
        FreedOnce(files, pipes, made, freed, next, f, p);
        pipes := pipes - {p};
        freed := freed + [p];
      } else {
        pipes := pipes[p := pipe];
      }
      files := files - {f};
    }

    /** files_alloc_fd for a file whose reference is already taken. */
    method AllocFd(t: int, f: int) returns (fd: int)
      requires ValidFor(tables, f) && f != 0 && 0 <= t < |tables|
      modifies `tables
      ensures fd == -1 ==> tables == old(tables) && forall k :: 0 <= k < SLOTS ==> tables[t][k] != 0
      ensures fd != -1 ==>
        Valid() && 0 <= fd < SLOTS && old(tables)[t][fd] == 0 && tables == Placed(old(tables), t, fd, f)
    {
      fd := FindFree(tables[t], 0);
      if fd < 0 { return -1; }
      PlaceSettles(files, tables, t, fd, f);
      tables := tables[t := tables[t][fd := f]];
    }

    /** files_dup. The reference is taken before a descriptor is looked for. */
    method Dup(t: int, oldfd: int) returns (fd: int)
      requires Valid() && 0 <= t < |tables|
      modifies `files, `tables
      ensures !(0 <= oldfd < SLOTS && old(tables)[t][oldfd] != 0) ==>
        fd == -1 && files == old(files) && tables == old(tables)
      ensures 0 <= oldfd < SLOTS && old(tables)[t][oldfd] != 0 ==> var f := old(tables)[t][oldfd];
        f in old(files) && files == old(files)[f := old(files)[f].(refs := old(files)[f].refs + 1)] &&
        if fd == -1 then tables == old(tables) && ValidFor(tables, f) &&
        (forall k :: 0 <= k < SLOTS ==> tables[t][k] != 0)
        else 0 <= fd < SLOTS && old(tables)[t][fd] == 0 && tables == Placed(old(tables), t, fd, f)
      ensures Valid() <==> (old(HasFree(tables[t])) || !(0 <= oldfd < SLOTS))
    {
      if oldfd < 0 || oldfd >= SLOTS { return -1; }
      var f := tables[t][oldfd];
      if f == 0 { return -1; }
      RefsPositive(tables, t, oldfd);
      Get(f, tables);
      fd := AllocFd(t, f);
      if fd == -1 { assert files[f].refs == Refs(tables, f) + 1; }
    }

    /** close */
    method Close(t: int, fd: int) returns (ok: bool)
      requires Valid() && 0 <= t < |tables|
      modifies `files, `pipes, `tables, `freed
      ensures Valid() && ok == (0 <= fd < SLOTS)
      ensures tables == if ok then Placed(old(tables), t, fd, 0) else old(tables)
      ensures if ok && old(tables)[t][fd] != 0 then Dropped(old(files), old(pipes), old(freed), files, pipes, freed,
        old(tables)[t][fd])
        else files == old(files) && pipes == old(pipes) && freed == old(freed)
    {
      if fd < 0 || fd >= SLOTS { return false; }
      var f := tables[t][fd];
      ok := true;
      if f == 0 {
        SameTables(tables, t, fd);
        return;
      }
      ClearOwes(files, tables, t, fd);
      tables := tables[t := tables[t][fd := 0]];
      Put(f, tables);
    }

    /** files_close_all: each file is put before its descriptor is cleared. */
    method CloseAll(t: int)
      requires Valid() && 0 <= t < |tables|
      modifies `files, `pipes, `tables, `freed
      ensures Valid() && |tables| == |old(tables)| && (forall k :: 0 <= k < SLOTS ==> tables[t][k] == 0)
      ensures Lasting(old(files), next, files, next)
      ensures forall u :: 0 <= u < |tables| && u != t ==> tables[u] == old(tables)[u]
    {
      var fd := 0;
      while fd < SLOTS
        invariant 0 <= fd <= SLOTS && Valid() && |tables| == |old(tables)| &&
          (forall k :: 0 <= k < fd ==> tables[t][k] == 0)
        invariant Lasting(old(files), next, files, next)
        invariant forall u :: 0 <= u < |tables| && u != t ==> tables[u] == old(tables)[u]
      {
        if tables[t][fd] != 0 {
          ClearOwes(files, tables, t, fd);
          Put(tables[t][fd], Placed(tables, t, fd, 0));
          tables := tables[t := tables[t][fd := 0]];
        }
        fd := fd + 1;
      }
    }

    /** files_clone. The demand: the new table is empty. */
    method Clone(dst: int, src: int)
      requires Valid() && 0 <= dst < |tables| && 0 <= src < |tables| && dst != src && forall k :: 0 <= k < SLOTS ==>
        tables[dst][k] == 0
      modifies `files, `tables
      ensures Valid() && tables == old(tables)[dst := old(tables)[src]] && Lasting(old(files), next, files, next)
    {
      CloneRange(dst, src, SLOTS);
      assert tables[dst] == old(tables)[src];
    }

    /** files_clone_stdio: only the first three descriptors. */
    method CloneStdio(dst: int, src: int)
      requires Valid() && 0 <= dst < |tables| && 0 <= src < |tables| && dst != src && forall k :: 0 <= k < SLOTS ==>
        tables[dst][k] == 0
      modifies `files, `tables
      ensures Valid() && |tables| == |old(tables)| && tables == old(tables)[dst := tables[dst]] &&
        |tables[dst]| == SLOTS
      ensures Lasting(old(files), next, files, next)
      ensures forall k :: 0 <= k < SLOTS ==> tables[dst][k] == if k < 3 then old(tables)[src][k] else 0
    {
      CloneRange(dst, src, 3);
    }

    /** The loop of both: each descriptor below n that is in use is shared. */
    method CloneRange(dst: int, src: int, n: int)
      requires Valid() && 0 <= dst < |tables| && 0 <= src < |tables| && dst != src && forall k :: 0 <= k < SLOTS ==>
        tables[dst][k] == 0
      requires 0 <= n <= SLOTS
      modifies `files, `tables
      ensures Valid() && |tables| == |old(tables)| && tables == old(tables)[dst := tables[dst]] &&
        |tables[dst]| == SLOTS
      ensures Lasting(old(files), next, files, next)
      ensures forall k :: 0 <= k < SLOTS ==> tables[dst][k] == if k < n then old(tables)[src][k] else 0
    {
      var fd := 0;
      while fd < n
        invariant 0 <= fd <= n && Valid() && |tables| == |old(tables)| && tables == old(tables)[dst := tables[dst]]
        invariant Lasting(old(files), next, files, next)
        invariant |tables[dst]| == SLOTS && forall k :: 0 <= k < SLOTS ==>
          tables[dst][k] == if k < fd then old(tables)[src][k] else 0
      {
        var f := tables[src][fd];
        if f != 0 {
          RefsPositive(tables, src, fd);
          Get(f, tables);
          PlaceSettles(files, tables, dst, fd, f);
          tables := tables[dst := tables[dst][fd := f]];
        }
        fd := fd + 1;
      }
    }

    /** pipe: a new pipe with both its ends in table t, or nothing at all. */
    method OpenPipe(t: int) returns (readFd: int, writeFd: int)
      requires Valid() && 0 <= t < |tables|
      modifies this
      ensures Valid() && Lasting(old(files), old(next), files, next) && Kept(old(got), got) && Kept(old(sent), sent)
      ensures |tables| == |old(tables)| && forall u :: 0 <= u < |tables| && u != t ==> tables[u] == old(tables)[u]
      ensures readFd == -1 ==> writeFd == -1 && files == old(files) && pipes == old(pipes) && tables == old(tables)
      ensures readFd != -1 ==> exists p, r, w ::
        PipeOpened(old(files), old(pipes), old(tables), old(freed), files, pipes, tables, t, readFd, writeFd, p, r, w)
    {
      var p, r, w := next, next + 1, next + 2;
      readFd := FindFree(tables[t], 0);
      if readFd < 0 {
        GiveBack();
        return -1, -1;
      }
      writeFd := FindFree(tables[t][readFd := r], 0);
      if writeFd < 0 {
        GiveBack();
        return -1, -1;
      }
      Install(t, readFd, writeFd, p, r, w);
    }

    /** The new pipe and its two files appear, each named once. */
    method Install(t: int, readFd: int, writeFd: int, p: int, r: int, w: int)
      requires Valid() && 0 <= t < |tables| && 0 <= readFd < SLOTS && 0 <= writeFd < SLOTS && readFd != writeFd
      requires tables[t][readFd] == 0 && tables[t][writeFd] == 0 && p == next && r == next + 1 && w == next + 2
      modifies this
      ensures Valid() && next == old(next) + 3 && freed == old(freed) && Kept(old(got), got) && Kept(old(sent), sent)
      ensures PipeOpened(old(files), old(pipes), old(tables), freed, files, pipes, tables, t, readFd, writeFd, p, r, w)
    {
      PipeCounted(files, tables, t, readFd, writeFd, p, r, w);
      PipeAdded(files, pipes, p, r, w);
      LogAdded(pipes, sent, got, p);
      FreedBorn(files, pipes, made, freed, next);
      next, made := next + 3, made + {p};
      files := files[r := File(1, ReadEnd, p)][w := File(1, WriteEnd, p)];
      pipes := pipes[p := NewPipe()];
      sent, got := sent[p := []], got[p := []];
      tables := tables[t := tables[t][readFd := r]];
      tables := tables[t := tables[t][writeFd := w]];
    }

    /** The pipe is freed again, for want of a descriptor. */
    method GiveBack()
      requires Valid()
      modifies `next, `made, `freed
      ensures Valid() && next == old(next) + 3 && freed == old(freed) + [old(next)]
    {
      FreedUnborn(files, pipes, made, freed, next);
      made, freed := made + {next}, freed + [next];
      next := next + 3;
    }

    /** pipe_write on a write end: refused when no reader is left, else as much as fits. */
    method Write(t: int, fd: int, data: Bytes) returns (n: int)
      requires Valid() && 0 <= t < |tables|
      modifies `pipes, `sent
      ensures Valid()
      ensures n >= 0 ==> Names(old(files), tables, t, fd, WriteEnd) && var p := old(files)[tables[t][fd]].pipe;
        p in old(pipes) && p in pipes && n <= |data| && Waiting(pipes[p]) == Waiting(old(pipes)[p]) + data[..n] &&
        pipes == old(pipes)[p := pipes[p]] && old(pipes)[p].readOpen > 0 && (n < |data| ==> pipes[p].size == SIZE)
      ensures n < 0 ==> pipes == old(pipes)
    {
      if fd < 0 || fd >= SLOTS || tables[t][fd] == 0 { return -1; }
      RefsPositive(tables, t, fd);
      var file := files[tables[t][fd]];
      if file.kind != WriteEnd { return -1; }
      var p := file.pipe;
      assert PipeGood(files, p, pipes[p]);
      if pipes[p].readOpen == 0 { return -1; }
      var pipe;
      n, pipe := PipeRing.Put(pipes[p], data);
      RingChanged(files, pipes, p, pipe);
      SentMore(pipes, sent, got, p, pipe, data[..n]);
      sent := sent[p := sent[p] + data[..n]];
      pipes := pipes[p := pipe];
    }

    /** Any call but a read that sleeps. Only the caller's table changes. */
    method Serve(op: Op)
      requires Valid()
      modifies this
      ensures Valid() && |tables| == |old(tables)| && Lasting(old(files), old(next), files, next)
      ensures forall u :: 0 <= u < |tables| && u != op.t ==> tables[u] == old(tables)[u]
      ensures Grown(old(got), got) && (!op.Reads? ==> Kept(old(got), got))
    {
      if Allowed(tables, op) {
        match op {
          case Writes(t, fd, data) => var n := Write(t, fd, data);
          case Reads(t, fd, count) => var r := ReadNow(t, fd, count);
          case Closes(t, fd) => var ok := Close(t, fd);
          case Exits(t) => CloseAll(t);
          case Dups(t, fd) => var n := Dup(t, fd);
          case Clones(t, src) => Clone(t, src);
          case ClonesStdio(t, src) => CloneStdio(t, src);
          case Pipes(t) => var r, w := OpenPipe(t);
        }
      }
    }

    /** What other processes do while the one with table t sleeps. */
    method Others(ops: seq<Op>, t: int)
      requires Valid() && 0 <= t < |tables|
      modifies this
      ensures Valid() && |tables| == |old(tables)| && tables[t] == old(tables)[t] &&
        Lasting(old(files), old(next), files, next)
      ensures Grown(old(got), got) && (NoneReads(ops) ==> Kept(old(got), got))
    {
      var k := 0;
      while k < |ops|
        invariant 0 <= k <= |ops| && Valid() && |tables| == |old(tables)| && tables[t] == old(tables)[t]
        invariant Lasting(old(files), old(next), files, next) && Grown(old(got), got) &&
          (NoneReads(ops) ==> Kept(old(got), got))
      {
        if ops[k].t != t { Serve(ops[k]); }
        k := k + 1;
      }
    }

    /** pipe_read of another process, up to where it would sleep. Taken up again later, it starts from the same test. */
    method ReadNow(t: int, fd: int, count: nat) returns (r: Outcome)
      requires Valid() && 0 <= t < |tables|
      modifies `pipes, `got
      ensures Valid() && Grown(old(got), got)
    {
      if fd < 0 || fd >= SLOTS || tables[t][fd] == 0 { return Failed; }
      RefsPositive(tables, t, fd);
      var file := files[tables[t][fd]];
      if file.kind != ReadEnd { return Failed; }
      var p := file.pipe;
      if pipes[p].size == 0 { return if pipes[p].writeOpen == 0 then Got([]) else Blocked; }
      var data := TakeData(p, count);
      r := Got(data);
    }

    /** pipe_read on a read end. An empty pipe is waited on while a writer is left. */
    method Read(t: int, fd: int, count: nat, sleeps: seq<Sleep>) returns (r: Outcome)
      requires Valid() && 0 <= t < |tables|
      modifies this
      ensures Valid() && |tables| == |old(tables)| && tables[t] == old(tables)[t] &&
        Lasting(old(files), old(next), files, next)
      ensures Grown(old(got), got) && (!r.Got? && NoOtherReads(sleeps) ==> Kept(old(got), got))
      ensures r.Got? ==> Names(files, tables, t, fd, ReadEnd) && var p := files[tables[t][fd]].pipe;
        p in pipes && p in got && p in old(got) && |r.data| <= count && Follows(old(got)[p], got[p], r.data) &&
        (NoOtherReads(sleeps) ==> Kept(old(got)[p := old(got)[p] + r.data], got)) &&
        (r.data == [] && count > 0 ==> Waiting(pipes[p]) == [] && !HasEnd(files, WriteEnd, p) && sent[p] == got[p])
    {
      if fd < 0 || fd >= SLOTS || tables[t][fd] == 0 { return Failed; }
      RefsPositive(tables, t, fd);
      var f := tables[t][fd];
      if files[f].kind != ReadEnd { return Failed; }
      var p := files[f].pipe;
      r := WaitData(t, fd, f, p, sleeps);
      if r.Got? && pipes[p].size != 0 {
        var data := TakeData(p, count);
        r := Got(data);
      }
    }

    /** The waiting loop of pipe_read: ends with data, without writers, by a signal, or still asleep. */
    method WaitData(t: int, fd: int, f: int, p: int, sleeps: seq<Sleep>) returns (r: Outcome)
      requires Valid() && 0 <= t < |tables| && 0 <= fd < SLOTS && f == tables[t][fd] && f != 0
      requires f in files && files[f].kind == ReadEnd && files[f].pipe == p
      modifies this
      ensures Valid() && |tables| == |old(tables)| && tables[t] == old(tables)[t] &&
        Lasting(old(files), old(next), files, next)
      ensures Grown(old(got), got) && (NoOtherReads(sleeps) ==> Kept(old(got), got))
      ensures f in files && files[f].kind == ReadEnd && files[f].pipe == p && p in pipes && p in got && p in old(got)
      ensures r.Got? ==>
        r.data == [] &&
        (pipes[p].size == 0 ==> Waiting(pipes[p]) == [] && !HasEnd(files, WriteEnd, p) && sent[p] == got[p])
    {
      var k := 0;
      while pipes[p].size == 0
        invariant Valid() && |tables| == |old(tables)| && tables[t] == old(tables)[t] && 0 <= k <= |sleeps|
        invariant Lasting(old(files), old(next), files, next) && Grown(old(got), got) &&
          (NoOtherReads(sleeps) ==> Kept(old(got), got))
        invariant f in files && files[f].kind == ReadEnd && files[f].pipe == p && p in pipes
        decreases |sleeps| - k
      {
        assert PipeGood(files, p, pipes[p]);
        if pipes[p].writeOpen == 0 {
          NothingSent(pipes, sent, got, p);
          return Got([]);
        }
        if k == |sleeps| { return Blocked; }
        Others(sleeps[k].ops, t);
        RefsPositive(tables, t, fd);
        if pipes[p].size == 0 && pipes[p].writeOpen != 0 && sleeps[k].signal { return Failed; }
        k := k + 1;
      }
      r := Got([]);
    }

    /** The copying part of pipe_read. */
    method TakeData(p: int, count: nat) returns (data: Bytes)
      requires Valid() && p in pipes && pipes[p].size > 0
      modifies `pipes, `got
      ensures Valid() && p in pipes && p in got && p in old(got) && got == old(got)[p := old(got)[p] + data]
      ensures |data| == (if count > old(pipes)[p].size then old(pipes)[p].size else count) &&
        Waiting(old(pipes)[p]) == data + Waiting(pipes[p])
    {
      assert PipeGood(files, p, pipes[p]);
      var pipe;
      data, pipe := Take(pipes[p], count);
      RingChanged(files, pipes, p, pipe);
      GotMore(pipes, sent, got, p, pipe, data);
      got := got[p := got[p] + data];
      pipes := pipes[p := pipe];
    }
  }

  /** A call by the process with descriptor table t. */
  datatype Op =
    | Writes(t: int, fd: int, data: Bytes) | Reads(t: int, fd: int, count: nat) | Closes(t: int,
    fd: int) | Exits(t: int)
    | Dups(t: int, fd: int) | Clones(t: int, src: int) | ClonesStdio(t: int, src: int) | Pipes(t: int)

  /** The demands on callers: a free descriptor for dup, an empty table to clone into. */
  predicate Allowed(ts: seq<Table>, op: Op)
  {
    && 0 <= op.t < |ts|
    && match op
       case Dups(t, fd) => exists k :: 0 <= k < |ts[t]| && ts[t][k] == 0
       case Clones(t, src) => 0 <= src < |ts| && t != src && Empty(ts[t])
       case ClonesStdio(t, src) => 0 <= src < |ts| && t != src && Empty(ts[t])
       case _ => true
  }

  predicate Empty(row: Table) { forall k :: 0 <= k < |row| ==> row[k] == 0 }

  /** A sleep: what others do until the wake-up, and whether a signal caused it. */
  datatype Sleep = Sleep(ops: seq<Op>, signal: bool)

  datatype Outcome = Blocked | Failed | Got(data: Bytes)

  ghost predicate NoneReads(ops: seq<Op>) { forall k :: 0 <= k < |ops| ==> !ops[k].Reads? }

  ghost predicate NoOtherReads(sleeps: seq<Sleep>) { forall k :: 0 <= k < |sleeps| ==> NoneReads(sleeps[k].ops) }

  /** Every log that was there is there; it has only become longer, or is the same. */
  ghost predicate Grown(log: map<int, Bytes>, log': map<int, Bytes>)
  {
    forall q :: q in log ==> q in log' && log[q] <= log'[q]
  }

  ghost predicate Kept(log: map<int, Bytes>, log': map<int, Bytes>)
  {
    forall q :: q in log ==> q in log' && log'[q] == log[q]
  }

  /** data is the last thing that was added to the log. */
  ghost predicate Follows(before: Bytes, after: Bytes, data: Bytes)
  {
    before <= after && |before| + |data| <= |after| && after[|after| - |data|..] == data
  }

  /** Descriptor fd of table t names a file of this kind. */
  ghost predicate Names(files: map<int, File>, ts: seq<Table>, t: int, fd: int, kind: Kind)
  {
    0 <= t < |ts| && 0 <= fd < |ts[t]| && ts[t][fd] in files && files[ts[t][fd]].kind == kind
  }

  /** A new empty pipe p, with a read end at one free descriptor and a write end at another. */
  ghost predicate PipeOpened(files: map<int, File>, pipes: map<int, Pipe>, ts: seq<Table>, freed: seq<int>,
                             files': map<int, File>, pipes': map<int, Pipe>, ts': seq<Table>, t: int, readFd: int,
                             writeFd: int, p: int, r: int, w: int)
  {
    && 0 <= t < |ts| && |ts[t]| == SLOTS && 0 <= readFd < SLOTS && 0 <= writeFd < SLOTS && readFd != writeFd
    && ts[t][readFd] == 0 && ts[t][writeFd] == 0
    && p !in pipes && p !in freed && r !in files && w !in files && pipes' == pipes[p := NewPipe()]
    && files' == files[r := File(1, ReadEnd, p)][w := File(1, WriteEnd, p)]
    && ts' == Placed(Placed(ts, t, readFd, r), t, writeFd, w)
  }

  lemma FreedUnborn(files: map<int, File>, pipes: map<int, Pipe>, made: set<int>, freed: seq<int>, next: int)
    requires FreedGood(files, pipes, made, freed, next)
    ensures FreedGood(files, pipes, made + {next}, freed + [next], next + 3)
  {
    assert forall i :: 0 <= i < |freed| ==> freed[i] in freed;
  }

  lemma FreedBorn(files: map<int, File>, pipes: map<int, Pipe>, made: set<int>, freed: seq<int>, next: int)
    requires FreedGood(files, pipes, made, freed, next)
    ensures FreedGood(files[next + 1 := File(1, ReadEnd, next)][next + 2 := File(1, WriteEnd, next)],
              pipes[next := NewPipe()], made + {next}, freed, next + 3)
  {
    assert next !in made;
  }

  lemma PipeCounted(files: map<int, File>, ts: seq<Table>, t: int, readFd: int, writeFd: int, p: int, r: int, w: int)
    requires CountGood(files, ts, 0) && 0 <= t < |ts| && 0 <= readFd < |ts[t]| && 0 <= writeFd < |ts[t]| &&
      readFd != writeFd
    requires ts[t][readFd] == 0 && ts[t][writeFd] == 0 && r !in files && w !in files && r != w && r != 0 && w != 0
    ensures CountGood(files[r := File(1, ReadEnd, p)][w := File(1, WriteEnd, p)],
      Placed(Placed(ts, t, readFd, r), t, writeFd, w), 0)
  {
    var files1, ts1 := files[r := File(1, ReadEnd, p)], Placed(ts, t, readFd, r);
    NewOwes(files, ts, r, File(1, ReadEnd, p));
    PlaceSettles(files1, ts, t, readFd, r);
    NewOwes(files1, ts1, w, File(1, WriteEnd, p));
    PlaceSettles(files1[w := File(1, WriteEnd, p)], ts1, t, writeFd, w);
  }

  lemma PipeAdded(files: map<int, File>, pipes: map<int, Pipe>, p: int, r: int, w: int)
    requires EndsGood(files, pipes) && p !in pipes && r !in files && w !in files && r != w
    ensures EndsGood(files[r := File(1, ReadEnd, p)][w := File(1, WriteEnd, p)], pipes[p := NewPipe()])
  {
    var files', pipes' := files[r := File(1, ReadEnd, p)][w := File(1, WriteEnd, p)], pipes[p := NewPipe()];
    assert files'[r] == File(1, ReadEnd, p) && files'[w] == File(1, WriteEnd, p);
    assert HasEnd(files', ReadEnd, p) && HasEnd(files', WriteEnd, p);
    forall q | q in pipes ensures PipeGood(files', q, pipes[q]) {
      assert PipeGood(files, q, pipes[q]);
      AddedElsewhere(files, p, r, w, ReadEnd, q);
      AddedElsewhere(files, p, r, w, WriteEnd, q);
    }
  }

  lemma AddedElsewhere(files: map<int, File>, p: int, r: int, w: int, kind: Kind, q: int)
    requires q != p && r !in files && w !in files && r != w
    ensures HasEnd(files[r := File(1, ReadEnd, p)][w := File(1, WriteEnd, p)], kind, q) == HasEnd(files, kind, q)
  {
    var files' := files[r := File(1, ReadEnd, p)][w := File(1, WriteEnd, p)];
    if HasEnd(files, kind, q) {
      var g :| g in files && files[g].kind == kind && files[g].pipe == q;
      assert g in files' && files'[g] == files[g];
    }
    if HasEnd(files', kind, q) {
      var g :| g in files' && files'[g].kind == kind && files'[g].pipe == q;
      assert g in files && files[g] == files'[g];
    }
  }

  lemma LogAdded(pipes: map<int, Pipe>, sent: map<int, Bytes>, got: map<int, Bytes>, p: int)
    requires LogGood(pipes, sent, got) && p !in pipes
    ensures LogGood(pipes[p := NewPipe()], sent[p := []], got[p := []])
  {
    assert Waiting(NewPipe()) == [];
  }

  lemma RingChanged(files: map<int, File>, pipes: map<int, Pipe>, p: int, pipe: Pipe)
    requires EndsGood(files, pipes) && p in pipes && RingGood(pipe) && pipe.readOpen == pipes[p].readOpen &&
      pipe.writeOpen == pipes[p].writeOpen
    ensures EndsGood(files, pipes[p := pipe])
  {
    assert PipeGood(files, p, pipes[p]);
    forall q | q in pipes && q != p ensures PipeGood(files, q, pipes[q]) {}
  }

  lemma SentMore(pipes: map<int, Pipe>, sent: map<int, Bytes>, got: map<int, Bytes>, p: int, pipe: Pipe, data: Bytes)
    requires LogGood(pipes, sent, got) && p in pipes && RingGood(pipe) && Waiting(pipe) == Waiting(pipes[p]) + data
    ensures LogGood(pipes[p := pipe], sent[p := sent[p] + data], got)
  {
    assert got[p] + (Waiting(pipes[p]) + data) == (got[p] + Waiting(pipes[p])) + data;
  }

  lemma NothingSent(pipes: map<int, Pipe>, sent: map<int, Bytes>, got: map<int, Bytes>, p: int)
    requires LogGood(pipes, sent, got) && p in pipes && pipes[p].size == 0
    ensures Waiting(pipes[p]) == [] && sent[p] == got[p] && got == got[p := got[p] + []]
  {
    assert Waiting(pipes[p]) == [];
    assert got[p] + [] == got[p];
  }

  lemma GotMore(pipes: map<int, Pipe>, sent: map<int, Bytes>, got: map<int, Bytes>, p: int, pipe: Pipe, data: Bytes)
    requires LogGood(pipes, sent, got) && p in pipes && RingGood(pipe) && Waiting(pipes[p]) == data + Waiting(pipe)
    ensures LogGood(pipes[p := pipe], sent, got[p := got[p] + data])
  {
    assert got[p] + (data + Waiting(pipe)) == (got[p] + data) + Waiting(pipe);
  }

  ghost predicate HasFree(row: Table) { exists k :: 0 <= k < |row| && row[k] == 0 }

  lemma SameTables(ts: seq<Table>, t: int, fd: int)
    requires 0 <= t < |ts| && 0 <= fd < |ts[t]| && ts[t][fd] == 0
    ensures Placed(ts, t, fd, 0) == ts
  {
    assert ts[t][fd := 0] == ts[t];
  }

  /** One reference to f has gone: only f's count, or f itself with its end of a pipe, is affected. */
  ghost predicate Dropped(files: map<int, File>, pipes: map<int, Pipe>, freed: seq<int>, files': map<int, File>,
                          pipes': map<int, Pipe>, freed': seq<int>, f: int)
  {
    && f in files
    && if files[f].refs > 1 then files' == files[f := files[f].(refs := files[f].refs - 1)] && pipes' == pipes &&
         freed' == freed
       else files' == files - {f} && if files[f].kind == Plain then pipes' == pipes && freed' == freed
       else files[f].pipe in pipes && pipes' == PipesAfter(pipes, files[f].pipe, files[f].kind) &&
            freed' == if files[f].pipe in pipes' then freed else freed + [files[f].pipe]
  }

  lemma {:induction false} NoRefs(ts: seq<Table>)
    requires forall t :: 0 <= t < |ts| ==> |ts[t]| == SLOTS && forall k :: 0 <= k < SLOTS ==> ts[t][k] == 0
    ensures forall f {:trigger Refs(ts, f)} :: f != 0 ==> Refs(ts, f) == 0
  {
    if ts != [] {
      NoRefs(ts[1..]);
      forall f {:trigger Refs(ts, f)} | f != 0 ensures Refs(ts, f) == 0 { assert f !in ts[0]; }
    }
  }

  // ---- any run ----

  /** A call, or a read that may sleep while others run. */
  datatype Call = Step(op: Op) | Receive(t: int, fd: int, count: nat, sleeps: seq<Sleep>)

  /** Over any run of calls, counts stay exact, every pipe is freed once and not too early, and bytes keep their
      order. */
  method Run(k: Kernel, calls: seq<Call>)
    requires k.Valid()
    modifies k
    ensures k.Valid() && Grown(old(k.got), k.got) && Lasting(old(k.files), old(k.next), k.files, k.next)
  {
    var i := 0;
    while i < |calls|
      invariant 0 <= i <= |calls| && k.Valid() && Grown(old(k.got), k.got) &&
        Lasting(old(k.files), old(k.next), k.files, k.next)
    {
      Serve(k, calls[i]);
      i := i + 1;
    }
  }

  method Serve(k: Kernel, c: Call)
    requires k.Valid()
    modifies k
    ensures k.Valid() && Grown(old(k.got), k.got) && Lasting(old(k.files), old(k.next), k.files, k.next)
  {
    match c {
      case Step(op) => k.Serve(op);
      case Receive(t, fd, count, sleeps) =>
        if 0 <= t < |k.tables| { var r := k.Read(t, fd, count, sleeps); }
    }
  }

  // ---- a dup that leaks ----

  function Ones(n: nat): (row: Table)
    ensures |row| == n && forall i :: 0 <= i < n ==> row[i] == 1
  {
    if n == 0 then [] else Ones(n - 1) + [1]
  }

  lemma {:induction false} CountOnes(n: nat, f: int)
    ensures multiset(Ones(n))[f] == if f == 1 then n else 0
  {
    if n > 0 { CountOnes(n - 1, f); }
  }

  lemma OnesGood(n: nat)
    requires n > 0
    ensures CountGood(map[1 := File(n, Plain, 0)], [Ones(n)], 0)
  {
    var ts := [Ones(n)];
    forall f: int ensures Refs(ts, f) == if f == 1 then n else 0 {
      CountOnes(n, f);
      assert ts[1..] == [];
    }
  }

  /** One table and one file. */
  method Single(file: File, row: Table) returns (k: Kernel)
    requires file.kind == Plain && |row| == SLOTS && CountGood(map[1 := file], [row], 0)
    ensures k.Valid() && fresh(k) && k.files == map[1 := file] && k.tables == [row]
  {
    k := new Kernel(1);
    k.files, k.tables, k.next := map[1 := file], [row], 2;
  }

  /** If all slots name the file, a dup finds none, and the file counts one reference more than there are slots. */
  method FullTableLeaks(n: nat) returns (fd: int, refs: int)
    requires n == SLOTS
    ensures fd == -1 && refs == n + 1
  {
    OnesGood(n);
    var k := Single(File(n, Plain, 0), Ones(n));
    fd := k.Dup(0, 0);
    refs := k.files[1].refs;
  }
}
