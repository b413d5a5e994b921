/** The code of aes.c: each round step and the two ciphers, in place on a buffer. */
module AesBuffer {
  import opened AesSteps
  import opened Aes

  /** The block at offset at. */
  function At(s: Bytes, at: nat): Block
    requires at + 16 <= |s|
  {
    s[at..at + 16]
  }

  ghost predicate Outside<T(!new)>(was: seq<T>, now: seq<T>, at: nat)
    requires |now| == |was|
  {
    forall k {:trigger now[k]} :: 0 <= k < |was| && !(at <= k < at + 16) ==> now[k] == was[k]
  }

  /** The block at offset at has become b; the rest of the buffer is as it was. */
  ghost predicate Became(was: Bytes, now: Bytes, at: nat, b: Block)
  {
    |now| == |was| && at + 16 <= |was| && At(now, at) == b && Outside(was, now, at)
  }

  lemma BecameTwice(was: Bytes, mid: Bytes, now: Bytes, at: nat, b: Block, c: Block)
    requires Became(was, mid, at, b) && Became(mid, now, at, c)
    ensures Became(was, now, at, c)
  {}

  /** Byte by byte: what a step has written so far. */
  lemma BecameBytes(was: Bytes, now: Bytes, at: nat, b: Block)
    requires |now| == |was| && at + 16 <= |was|
    requires forall k :: 0 <= k < |was| ==> now[k] == if at <= k < at + 16 then b[k - at] else was[k]
    ensures Became(was, now, at, b)
  {
    assert forall i :: 0 <= i < 16 ==> At(now, at)[i] == now[at + i];
  }

  method AddRoundKey(buf: array<bv8>, at: nat, keys: Keys, round: nat)
    requires at + 16 <= buf.Length && round <= ROUNDS
    modifies buf
    ensures Became(old(buf[..]), buf[..], at, AddKey(At(old(buf[..]), at), Key(keys, round)))
  {
    ghost var was := buf[..];
    var i := 0;
    while i < 4
      invariant 0 <= i <= 4
      invariant forall k :: 0 <= k < buf.Length ==>
        buf[k] == if at <= k < at + 4 * i then Xor(was[k], keys[16 * round + (k - at)]) else was[k]
    {
      var j := 0;
      while j < 4
        invariant 0 <= j <= 4
        invariant forall k :: 0 <= k < buf.Length ==>
          buf[k] == if at <= k < at + 4 * i + j then Xor(was[k], keys[16 * round + (k - at)]) else was[k]
      {
        buf[at + 4 * i + j] := Xor(buf[at + 4 * i + j], keys[16 * round + 4 * i + j]);
        j := j + 1;
      }
      i := i + 1;
    }
    BecameBytes(was, buf[..], at, AddKey(At(was, at), Key(keys, round)));
  }

  // ---- every byte, row by row ----

  /** Which bytes of the block a loop over rows, then columns, has done. */
  predicate Done(m: int, row: int, column: int) { m % 4 < row || (m % 4 == row && m / 4 < column) }

  ghost predicate Replaced<T(!new)>(f: T -> T, was: seq<T>, now: seq<T>, at: nat, row: int, column: int)
  {
    && |now| == |was|
    && forall k {:trigger now[k]} ::
         0 <= k < |was| ==> now[k] == if at <= k < at + 16 && Done(k - at, row, column) then f(was[k]) else was[k]
  }

  lemma OneReplaced<T(!new)>(f: T -> T, was: seq<T>, mid: seq<T>, now: seq<T>, at: nat, i: nat, j: nat)
    requires at + 16 <= |was| && i < 4 && j < 4 && Replaced(f, was, mid, at, i, j)
    requires now == mid[at + 4 * j + i := f(mid[at + 4 * j + i])]
    ensures Replaced(f, was, now, at, i, j + 1)
  {
    forall k | 0 <= k < |was|
      ensures now[k] == if at <= k < at + 16 && Done(k - at, i, j + 1) then f(was[k]) else was[k]
    {
      assert mid[k] == if at <= k < at + 16 && Done(k - at, i, j) then f(was[k]) else was[k];
      if at <= k < at + 16 { DoneNext(k - at, i, j); }
    }
  }

  lemma DoneNext(m: nat, i: nat, j: nat)
    requires m < 16 && i < 4 && j < 4
    ensures Done(m, i, j + 1) <==> Done(m, i, j) || m == 4 * j + i
    ensures m == 4 * j + i ==> !Done(m, i, j)
    ensures Done(m, i, 4) <==> Done(m, i + 1, 0)
    ensures Done(m, 4, 0) && !Done(m, 0, 0)
  {}

  lemma RowReplaced<T(!new)>(f: T -> T, was: seq<T>, now: seq<T>, at: nat, i: nat)
    requires at + 16 <= |was| && i < 4 && Replaced(f, was, now, at, i, 4)
    ensures Replaced(f, was, now, at, i + 1, 0)
  {
    forall m: nat | m < 16 ensures Done(m, i, 4) <==> Done(m, i + 1, 0) { DoneNext(m, i, 0); }
  }

  lemma AllReplaced<T(!new)>(f: T -> T, was: seq<T>, now: seq<T>, at: nat)
    requires at + 16 <= |was| && Replaced(f, was, now, at, 4, 0)
    ensures now[at..at + 16] == Each(f, was[at..at + 16]) && Outside(was, now, at)
  {
    forall m: nat | m < 16 ensures Done(m, 4, 0) { DoneNext(m, 0, 0); }
  }

  method SubBytes(buf: array<bv8>, at: nat)
    requires at + 16 <= buf.Length
    modifies buf
    ensures Became(old(buf[..]), buf[..], at, Sub(At(old(buf[..]), at)))
  {
    ghost var was := buf[..];
    var i := 0;
    while i < 4
      invariant 0 <= i <= 4 && Replaced(Sbox, was, buf[..], at, i, 0)
    {
      var j := 0;
      while j < 4
        invariant 0 <= j <= 4 && Replaced(Sbox, was, buf[..], at, i, j)
      {
        ghost var mid := buf[..];
        buf[at + 4 * j + i] := Sbox(buf[at + 4 * j + i]);
        OneReplaced(Sbox, was, mid, buf[..], at, i, j);
        j := j + 1;
      }
      RowReplaced(Sbox, was, buf[..], at, i);
      i := i + 1;
    }
    AllReplaced(Sbox, was, buf[..], at);
  }

  method InvSubBytes(buf: array<bv8>, at: nat)
    requires at + 16 <= buf.Length
    modifies buf
    ensures Became(old(buf[..]), buf[..], at, InverseSub(At(old(buf[..]), at)))
  {
    ghost var was := buf[..];
    var i := 0;
    while i < 4
      invariant 0 <= i <= 4 && Replaced(InverseSbox, was, buf[..], at, i, 0)
    {
      var j := 0;
      while j < 4
        invariant 0 <= j <= 4 && Replaced(InverseSbox, was, buf[..], at, i, j)
      {
        ghost var mid := buf[..];
        buf[at + 4 * j + i] := InverseSbox(buf[at + 4 * j + i]);
        OneReplaced(InverseSbox, was, mid, buf[..], at, i, j);
        j := j + 1;
      }
      RowReplaced(InverseSbox, was, buf[..], at, i);
      i := i + 1;
    }
    AllReplaced(InverseSbox, was, buf[..], at);
  }

  // ---- the rows ----

  /** Row r of the block at at. */
  function RowOf<T>(s: seq<T>, at: nat, r: nat): (row: seq<T>)
    requires at + 16 <= |s| && r < 4
  {
    [s[at + r], s[at + 4 + r], s[at + 8 + r], s[at + 12 + r]]
  }

  /** Row r has become row; the rest of the buffer is as it was. */
  ghost predicate RowBecame<T(!new)>(was: seq<T>, now: seq<T>, at: nat, r: nat, row: seq<T>)
    requires at + 16 <= |was| && r < 4
  {
    && |now| == |was|
    && (forall k {:trigger now[k]} ::
          0 <= k < |was| && k != at + r && k != at + 4 + r && k != at + 8 + r && k != at + 12 + r ==> now[k] == was[k])
    && RowOf(now, at, r) == row
  }

  lemma RowKept<T(!new)>(was: seq<T>, now: seq<T>, at: nat, r: nat, row: seq<T>, q: nat)
    requires at + 16 <= |was| && r < 4 && q < 4 && q != r && RowBecame(was, now, at, r, row)
    ensures RowOf(now, at, q) == RowOf(was, at, q)
    ensures Outside(was, now, at)
  {}

  /** Three rows replaced, one after the other. */
  lemma RowsReplaced<T(!new)>(s0: seq<T>, s1: seq<T>, s2: seq<T>, s3: seq<T>, at: nat, r1: seq<T>, r2: seq<T>,
                       r3: seq<T>)
    requires at + 16 <= |s0| && |s1| == |s0| && |s2| == |s0|
    requires RowBecame(s0, s1, at, 1, r1) && RowBecame(s1, s2, at, 2, r2) && RowBecame(s2, s3, at, 3, r3)
    ensures RowOf(s3, at, 0) == RowOf(s0, at, 0) && RowOf(s3, at, 1) == r1 && RowOf(s3, at, 2) == r2 &&
      RowOf(s3, at, 3) == r3
    ensures RowOf(s1, at, 2) == RowOf(s0, at, 2) && RowOf(s2, at, 3) == RowOf(s0, at, 3)
    ensures Outside(s0, s3, at)
  {
    RowKept(s0, s1, at, 1, r1, 0);
    RowKept(s0, s1, at, 1, r1, 2);
    RowKept(s0, s1, at, 1, r1, 3);
    RowKept(s1, s2, at, 2, r2, 0);
    RowKept(s1, s2, at, 2, r2, 1);
    RowKept(s1, s2, at, 2, r2, 3);
    RowKept(s2, s3, at, 3, r3, 0);
    RowKept(s2, s3, at, 3, r3, 1);
    RowKept(s2, s3, at, 3, r3, 2);
  }

  /** A block is its rows. */
  lemma BlockOfRows<T>(s: seq<T>, at: nat, b: seq<T>)
    requires at + 16 <= |s| && |b| == 16
    requires RowOf(s, at, 0) == RowOf(b, 0, 0) && RowOf(s, at, 1) == RowOf(b, 0, 1)
    requires RowOf(s, at, 2) == RowOf(b, 0, 2) && RowOf(s, at, 3) == RowOf(b, 0, 3)
    ensures s[at..at + 16] == b
  {
    SameRow(s, at, b, 0);
    SameRow(s, at, b, 1);
    SameRow(s, at, b, 2);
    SameRow(s, at, b, 3);
    forall i | 0 <= i < 16 ensures s[at + i] == b[i] { assert i == 4 * (i / 4) + i % 4; }
  }

  lemma SameRow<T>(s: seq<T>, at: nat, b: seq<T>, r: nat)
    requires at + 16 <= |s| && |b| == 16 && r < 4 && RowOf(s, at, r) == RowOf(b, 0, r)
    ensures s[at + r] == b[r] && s[at + 4 + r] == b[4 + r] && s[at + 8 + r] == b[8 + r] && s[at + 12 + r] == b[12 + r]
  {
    var p, q := RowOf(s, at, r), RowOf(b, 0, r);
    assert p[0] == q[0] && p[1] == q[1] && p[2] == q[2] && p[3] == q[3];
  }

  /** A row rotated to the left by n. */
  function Turned<T>(row: seq<T>, n: nat): seq<T>
    requires n <= 4 == |row|
  {
    [row[n % 4], row[(n + 1) % 4], row[(n + 2) % 4], row[(n + 3) % 4]]
  }

  lemma ShiftTurns(b: Block, r: nat)
    requires r < 4
    ensures RowOf(Shift(b), 0, r) == Turned(RowOf(b, 0, r), r)
    ensures RowOf(InverseShift(b), 0, r) == Turned(RowOf(b, 0, r), 4 - r)
  {}

  lemma RowsShifted(s0: Bytes, s1: Bytes, s2: Bytes, s3: Bytes, at: nat)
    requires at + 16 <= |s0| && |s1| == |s0| && |s2| == |s0|
    requires RowBecame(s0, s1, at, 1, Turned(RowOf(s0, at, 1), 1))
    requires RowBecame(s1, s2, at, 2, Turned(RowOf(s1, at, 2), 2))
    requires RowBecame(s2, s3, at, 3, Turned(RowOf(s2, at, 3), 3))
    ensures Became(s0, s3, at, Shift(At(s0, at)))
  {
    var b := At(s0, at);
    RowsReplaced(s0, s1, s2, s3, at, Turned(RowOf(s0, at, 1), 1), Turned(RowOf(s1, at, 2), 2),
      Turned(RowOf(s2, at, 3), 3));
    forall r: nat | r < 4 ensures RowOf(b, 0, r) == RowOf(s0, at, r) {}
    ShiftTurns(b, 0);
    ShiftTurns(b, 1);
    ShiftTurns(b, 2);
    ShiftTurns(b, 3);
    BlockOfRows(s3, at, Shift(b));
  }

  lemma RowsUnshifted(s0: Bytes, s1: Bytes, s2: Bytes, s3: Bytes, at: nat)
    requires at + 16 <= |s0| && |s1| == |s0| && |s2| == |s0|
    requires RowBecame(s0, s1, at, 1, Turned(RowOf(s0, at, 1), 3))
    requires RowBecame(s1, s2, at, 2, Turned(RowOf(s1, at, 2), 2))
    requires RowBecame(s2, s3, at, 3, Turned(RowOf(s2, at, 3), 1))
    ensures Became(s0, s3, at, InverseShift(At(s0, at)))
  {
    var b := At(s0, at);
    RowsReplaced(s0, s1, s2, s3, at, Turned(RowOf(s0, at, 1), 3), Turned(RowOf(s1, at, 2), 2),
      Turned(RowOf(s2, at, 3), 1));
    forall r: nat | r < 4 ensures RowOf(b, 0, r) == RowOf(s0, at, r) {}
    ShiftTurns(b, 0);
    ShiftTurns(b, 1);
    ShiftTurns(b, 2);
    ShiftTurns(b, 3);
    BlockOfRows(s3, at, InverseShift(b));
  }

  method RotateLeft(buf: array<bv8>, p: nat, q: nat, r: nat, s: nat)
    requires p < buf.Length && q < buf.Length && r < buf.Length && s < buf.Length
    requires p != q && p != r && p != s && q != r && q != s && r != s
    modifies buf
    ensures buf[p] == old(buf[q]) && buf[q] == old(buf[r]) && buf[r] == old(buf[s]) && buf[s] == old(buf[p])
    ensures forall k :: 0 <= k < buf.Length && k != p && k != q && k != r && k != s ==> buf[k] == old(buf[k])
  {
    var temp := buf[p];
    buf[p] := buf[q];
    buf[q] := buf[r];
    buf[r] := buf[s];
    buf[s] := temp;
  }

  method Swap(buf: array<bv8>, p: nat, q: nat)
    requires p < buf.Length && q < buf.Length
    modifies buf
    ensures buf[p] == old(buf[q]) && buf[q] == old(buf[p])
    ensures forall k :: 0 <= k < buf.Length && k != p && k != q ==> buf[k] == old(buf[k])
  {
    var temp := buf[p];
    buf[p] := buf[q];
    buf[q] := temp;
  }

  method ShiftRows(buf: array<bv8>, at: nat)
    requires at + 16 <= buf.Length
    modifies buf
    ensures Became(old(buf[..]), buf[..], at, Shift(At(old(buf[..]), at)))
  {
    ghost var s0 := buf[..];
    RotateLeft(buf, at + 1, at + 5, at + 9, at + 13);
    ghost var s1 := buf[..];
    Swap(buf, at + 2, at + 10);
    Swap(buf, at + 6, at + 14);
    ghost var s2 := buf[..];
    RotateLeft(buf, at + 3, at + 15, at + 11, at + 7);
    RowsShifted(s0, s1, s2, buf[..], at);
  }

  method InvShiftRows(buf: array<bv8>, at: nat)
    requires at + 16 <= buf.Length
    modifies buf
    ensures Became(old(buf[..]), buf[..], at, InverseShift(At(old(buf[..]), at)))
  {
    ghost var s0 := buf[..];
    RotateLeft(buf, at + 13, at + 9, at + 5, at + 1);
    ghost var s1 := buf[..];
    Swap(buf, at + 2, at + 10);
    Swap(buf, at + 6, at + 14);
    ghost var s2 := buf[..];
    RotateLeft(buf, at + 3, at + 7, at + 11, at + 15);
    RowsUnshifted(s0, s1, s2, buf[..], at);
  }

  // ---- the columns ----

  /** The column at p has become f of itself; the rest is as it was. */
  ghost predicate ColumnBecame<T(!new)>(f: (T, T, T, T) -> T, was: seq<T>, now: seq<T>, p: nat)
    requires p + 4 <= |was|
  {
    && |now| == |was|
    && (forall k {:trigger now[k]} :: 0 <= k < |was| && !(p <= k < p + 4) ==> now[k] == was[k])
    && now[p] == f(was[p], was[p + 1], was[p + 2], was[p + 3])
    && now[p + 1] == f(was[p + 1], was[p + 2], was[p + 3], was[p])
    && now[p + 2] == f(was[p + 2], was[p + 3], was[p], was[p + 1])
    && now[p + 3] == f(was[p + 3], was[p], was[p + 1], was[p + 2])
  }

  /** The first n columns of the block are done. */
  ghost predicate Mixed<T(!new)>(f: (T, T, T, T) -> T, was: seq<T>, now: seq<T>, at: nat, n: int)
    requires at + 16 <= |was|
  {
    && |now| == |was|
    && forall k {:trigger now[k]} :: 0 <= k < |was| ==>
         now[k] == if at <= k < at + 16 && k - at < 4 * n then ByColumn(f, was[at..at + 16])[k - at] else was[k]
  }

  lemma OneMixed<T(!new)>(f: (T, T, T, T) -> T, was: seq<T>, mid: seq<T>, now: seq<T>, at: nat, i: nat)
    requires at + 16 <= |was| && i < 4 && Mixed(f, was, mid, at, i) && ColumnBecame(f, mid, now, at + 4 * i)
    ensures Mixed(f, was, now, at, i + 1)
  {
    var b, p := was[at..at + 16], at + 4 * i;
    assert mid[p] == b[4 * i] && mid[p + 1] == b[4 * i + 1] && mid[p + 2] == b[4 * i + 2] && mid[p + 3] == b[4 * i + 3];
    forall k | p <= k < p + 4 ensures now[k] == ByColumn(f, b)[k - at] {
      if k == p { DownColumn(i, 0); } else if k == p + 1 { DownColumn(i, 1); } else if k == p + 2 { DownColumn(i,
        2); } else { DownColumn(i, 3); }
    }
  }

  lemma DownColumn(i: nat, r: nat)
    requires i < 4 && r < 4
    ensures Down(4 * i + r, 1) == 4 * i + (r + 1) % 4 && Down(4 * i + r, 2) == 4 * i + (r + 2) % 4
    ensures Down(4 * i + r, 3) == 4 * i + (r + 3) % 4
  {
    assert (4 * i + r) % 4 == r;
  }

  lemma AllMixed<T(!new)>(f: (T, T, T, T) -> T, was: seq<T>, now: seq<T>, at: nat)
    requires at + 16 <= |was| && Mixed(f, was, now, at, 4)
    ensures now[at..at + 16] == ByColumn(f, was[at..at + 16]) && Outside(was, now, at)
  {}

  lemma SumRotates(a: bv8, b: bv8, c: bv8, d: bv8)
    ensures Xor(Xor(Xor(a, b), c), d) == Xor(Xor(Xor(b, c), d), a)
  {}

  /** The code's one sum of the column serves all four of its bytes. */
  lemma MixRows(a: bv8, b: bv8, c: bv8, d: bv8)
    ensures var sum := Xor(Xor(Xor(a, b), c), d);
      && Xor(a, Xor(Xtime(Xor(a, b)), sum)) == MixByte(a, b, c, d)
      && Xor(b, Xor(Xtime(Xor(b, c)), sum)) == MixByte(b, c, d, a)
      && Xor(c, Xor(Xtime(Xor(c, d)), sum)) == MixByte(c, d, a, b)
      && Xor(d, Xor(Xtime(Xor(d, a)), sum)) == MixByte(d, a, b, c)
  {
    SumRotates(a, b, c, d);
    SumRotates(b, c, d, a);
    SumRotates(c, d, a, b);
  }

  method MixColumn(buf: array<bv8>, p: nat)
    requires p + 4 <= buf.Length
    modifies buf
    ensures ColumnBecame(MixByte, old(buf[..]), buf[..], p)
  {
    ghost var a, b, c, d := buf[p], buf[p + 1], buf[p + 2], buf[p + 3];
    var t := buf[p];
    var tmp := Xor(Xor(Xor(buf[p], buf[p + 1]), buf[p + 2]), buf[p + 3]);
    var tm := Xtime(Xor(buf[p], buf[p + 1]));
    buf[p] := Xor(buf[p], Xor(tm, tmp));
    tm := Xtime(Xor(buf[p + 1], buf[p + 2]));
    buf[p + 1] := Xor(buf[p + 1], Xor(tm, tmp));
    tm := Xtime(Xor(buf[p + 2], buf[p + 3]));
    buf[p + 2] := Xor(buf[p + 2], Xor(tm, tmp));
    tm := Xtime(Xor(buf[p + 3], t));
    buf[p + 3] := Xor(buf[p + 3], Xor(tm, tmp));
    MixRows(a, b, c, d);
  }

  method MixColumns(buf: array<bv8>, at: nat)
    requires at + 16 <= buf.Length
    modifies buf
    ensures Became(old(buf[..]), buf[..], at, Mix(At(old(buf[..]), at)))
  {
    ghost var was := buf[..];
    var i := 0;
    while i < 4
      invariant 0 <= i <= 4 && Mixed(MixByte, was, buf[..], at, i)
    {
      ghost var mid := buf[..];
      MixColumn(buf, at + 4 * i);
      OneMixed(MixByte, was, mid, buf[..], at, i);
      i := i + 1;
    }
    AllMixed(MixByte, was, buf[..], at);
  }

  /** The code's other three rows are its first row of the rotated column. */
  lemma UnmixRows(a: bv8, b: bv8, c: bv8, d: bv8)
    ensures Xor(Xor(Xor(Multiply(a, 0x09), Multiply(b, 0x0e)), Multiply(c, 0x0b)), Multiply(d, 0x0d)) == UnmixByte(b,
      c, d, a)
    ensures Xor(Xor(Xor(Multiply(a, 0x0d), Multiply(b, 0x09)), Multiply(c, 0x0e)), Multiply(d, 0x0b)) == UnmixByte(c,
      d, a, b)
    ensures Xor(Xor(Xor(Multiply(a, 0x0b), Multiply(b, 0x0d)), Multiply(c, 0x09)), Multiply(d, 0x0e)) == UnmixByte(d,
      a, b, c)
  {
    SumRotates(Multiply(a, 0x09), Multiply(b, 0x0e), Multiply(c, 0x0b), Multiply(d, 0x0d));
    SumRotates(Multiply(a, 0x0d), Multiply(b, 0x09), Multiply(c, 0x0e), Multiply(d, 0x0b));
    SumRotates(Multiply(b, 0x09), Multiply(c, 0x0e), Multiply(d, 0x0b), Multiply(a, 0x0d));
    SumRotates(Multiply(d, 0x0e), Multiply(a, 0x0b), Multiply(b, 0x0d), Multiply(c, 0x09));
  }

  method InvMixColumn(buf: array<bv8>, p: nat)
    requires p + 4 <= buf.Length
    modifies buf
    ensures ColumnBecame(UnmixByte, old(buf[..]), buf[..], p)
  {
    var a, b, c, d := buf[p], buf[p + 1], buf[p + 2], buf[p + 3];
    buf[p] := Xor(Xor(Xor(Multiply(a, 0x0e), Multiply(b, 0x0b)), Multiply(c, 0x0d)), Multiply(d, 0x09));
    buf[p + 1] := Xor(Xor(Xor(Multiply(a, 0x09), Multiply(b, 0x0e)), Multiply(c, 0x0b)), Multiply(d, 0x0d));
    buf[p + 2] := Xor(Xor(Xor(Multiply(a, 0x0d), Multiply(b, 0x09)), Multiply(c, 0x0e)), Multiply(d, 0x0b));
    buf[p + 3] := Xor(Xor(Xor(Multiply(a, 0x0b), Multiply(b, 0x0d)), Multiply(c, 0x09)), Multiply(d, 0x0e));
    UnmixRows(a, b, c, d);
  }

  method InvMixColumns(buf: array<bv8>, at: nat)
    requires at + 16 <= buf.Length
    modifies buf
    ensures Became(old(buf[..]), buf[..], at, InverseMix(At(old(buf[..]), at)))
  {
    ghost var was := buf[..];
    var i := 0;
    while i < 4
      invariant 0 <= i <= 4 && Mixed(UnmixByte, was, buf[..], at, i)
    {
      ghost var mid := buf[..];
      InvMixColumn(buf, at + 4 * i);
      OneMixed(UnmixByte, was, mid, buf[..], at, i);
      i := i + 1;
    }
    AllMixed(UnmixByte, was, buf[..], at);
  }


  // ---- the ciphers ----

  // What a buffer goes through, step by step, in one half of a round.

  /** The block has been through the cipher up to AddRoundKey of round r; up to ShiftRows of round r + 1. */
  ghost predicate Reached(was: Bytes, now: Bytes, at: nat, keys: Keys, r: nat)
    requires r < ROUNDS
  {
    at + 16 <= |was| && Became(was, now, at, Entered(At(was, at), keys, r))
  }

  ghost predicate Halfway(was: Bytes, now: Bytes, at: nat, keys: Keys, r: nat)
    requires r < ROUNDS
  {
    at + 16 <= |was| && Became(was, now, at, Scramble(Entered(At(was, at), keys, r)))
  }

  lemma Scrambles(was: Bytes, s0: Bytes, s1: Bytes, s2: Bytes, at: nat, keys: Keys, r: nat)
    requires r < ROUNDS && Reached(was, s0, at, keys, r)
    requires Became(s0, s1, at, Sub(At(s0, at))) && Became(s1, s2, at, Shift(At(s1, at)))
    ensures Halfway(was, s2, at, keys, r)
  {
    var b := Entered(At(was, at), keys, r);
    BecameTwice(was, s0, s1, at, b, Sub(b));
    BecameTwice(was, s1, s2, at, Sub(b), Shift(Sub(b)));
  }

  lemma Enters(was: Bytes, s0: Bytes, s1: Bytes, s2: Bytes, at: nat, keys: Keys, r: nat)
    requires 1 <= r < ROUNDS && Halfway(was, s0, at, keys, r - 1)
    requires Became(s0, s1, at, Mix(At(s0, at))) && Became(s1, s2, at, AddKey(At(s1, at), Key(keys, r)))
    ensures Reached(was, s2, at, keys, r)
  {
    var b := Scramble(Entered(At(was, at), keys, r - 1));
    BecameTwice(was, s0, s1, at, b, Mix(b));
    BecameTwice(was, s1, s2, at, Mix(b), AddKey(Mix(b), Key(keys, r)));
  }

  lemma Finishes(was: Bytes, s0: Bytes, s1: Bytes, at: nat, keys: Keys)
    requires Halfway(was, s0, at, keys, ROUNDS - 1) && Became(s0, s1, at, AddKey(At(s0, at), Key(keys, ROUNDS)))
    ensures Became(was, s1, at, Ciphered(At(was, at), keys))
  {
    var b := Scramble(Entered(At(was, at), keys, ROUNDS - 1));
    BecameTwice(was, s0, s1, at, b, AddKey(b, Key(keys, ROUNDS)));
  }

  /** The part of round r every round has. */
  method HalfRound(buf: array<bv8>, at: nat, keys: Keys, r: nat, ghost was: Bytes)
    requires at + 16 <= buf.Length && r < ROUNDS && Reached(was, buf[..], at, keys, r)
    modifies buf
    ensures Halfway(was, buf[..], at, keys, r)
  {
    ghost var s0 := buf[..];
    SubBytes(buf, at);
    ghost var s1 := buf[..];
    ShiftRows(buf, at);
    Scrambles(was, s0, s1, buf[..], at, keys, r);
  }

  /** The part of round r the last round does without. */
  method OtherHalf(buf: array<bv8>, at: nat, keys: Keys, r: nat, ghost was: Bytes)
    requires at + 16 <= buf.Length && 1 <= r < ROUNDS && Halfway(was, buf[..], at, keys, r - 1)
    modifies buf
    ensures Reached(was, buf[..], at, keys, r)
  {
    ghost var s0 := buf[..];
    MixColumns(buf, at);
    ghost var s1 := buf[..];
    AddRoundKey(buf, at, keys, r);
    Enters(was, s0, s1, buf[..], at, keys, r);
  }

  method FirstKey(buf: array<bv8>, at: nat, keys: Keys)
    requires at + 16 <= buf.Length
    modifies buf
    ensures Reached(old(buf[..]), buf[..], at, keys, 0)
  {
    AddRoundKey(buf, at, keys, 0);
  }

  method LastKey(buf: array<bv8>, at: nat, keys: Keys, ghost was: Bytes)
    requires at + 16 <= buf.Length && Halfway(was, buf[..], at, keys, ROUNDS - 1)
    modifies buf
    ensures Became(was, buf[..], at, Ciphered(At(was, at), keys))
  {
    ghost var last := buf[..];
    AddRoundKey(buf, at, keys, ROUNDS);
    Finishes(was, last, buf[..], at, keys);
  }

  method Cipher(buf: array<bv8>, at: nat, keys: Keys)
    requires at + 16 <= buf.Length
    modifies buf
    ensures Became(old(buf[..]), buf[..], at, Ciphered(At(old(buf[..]), at), keys))
  {
    FirstKey(buf, at, keys);
    var round := 1;
    while true
      invariant 1 <= round <= ROUNDS && Reached(old(buf[..]), buf[..], at, keys, round - 1)
      decreases ROUNDS - round
    {
      HalfRound(buf, at, keys, round - 1, old(buf[..]));
      if round == ROUNDS {
        break;
      }
      OtherHalf(buf, at, keys, round, old(buf[..]));
      round := round + 1;
    }
    LastKey(buf, at, keys, old(buf[..]));
  }

  /** The block has been through the inverse up to the start of the round of key r; up to that round key. */
  ghost predicate Unwound(was: Bytes, now: Bytes, at: nat, keys: Keys, r: nat)
    requires r < ROUNDS
  {
    at + 16 <= |was| && Became(was, now, at, Peeled(At(was, at), keys, r))
  }

  ghost predicate Stripped(was: Bytes, now: Bytes, at: nat, keys: Keys, r: nat)
    requires r < ROUNDS
  {
    at + 16 <= |was| && Became(was, now, at, AddKey(Unscramble(Peeled(At(was, at), keys, r)), Key(keys, r)))
  }

  lemma Strips(was: Bytes, s0: Bytes, s1: Bytes, s2: Bytes, s3: Bytes, at: nat, keys: Keys, r: nat)
    requires r < ROUNDS && Unwound(was, s0, at, keys, r)
    requires Became(s0, s1, at, InverseShift(At(s0, at))) && Became(s1, s2, at, InverseSub(At(s1, at)))
    requires Became(s2, s3, at, AddKey(At(s2, at), Key(keys, r)))
    ensures Stripped(was, s3, at, keys, r)
  {
    var b := Peeled(At(was, at), keys, r);
    BecameTwice(was, s0, s1, at, b, InverseShift(b));
    BecameTwice(was, s1, s2, at, InverseShift(b), Unscramble(b));
    BecameTwice(was, s2, s3, at, Unscramble(b), AddKey(Unscramble(b), Key(keys, r)));
  }

  lemma Unwinds(was: Bytes, s0: Bytes, s1: Bytes, at: nat, keys: Keys, r: nat)
    requires 1 <= r < ROUNDS && Stripped(was, s0, at, keys, r) && Became(s0, s1, at, InverseMix(At(s0, at)))
    ensures Unwound(was, s1, at, keys, r - 1)
  {
    var b := AddKey(Unscramble(Peeled(At(was, at), keys, r)), Key(keys, r));
    BecameTwice(was, s0, s1, at, b, InverseMix(b));
  }

  /** The part of the inverse of a round that every round has. */
  method InvHalfRound(buf: array<bv8>, at: nat, keys: Keys, r: nat, ghost was: Bytes)
    requires at + 16 <= buf.Length && r < ROUNDS && Unwound(was, buf[..], at, keys, r)
    modifies buf
    ensures Stripped(was, buf[..], at, keys, r)
  {
    ghost var s0 := buf[..];
    InvShiftRows(buf, at);
    ghost var s1 := buf[..];
    InvSubBytes(buf, at);
    ghost var s2 := buf[..];
    AddRoundKey(buf, at, keys, r);
    Strips(was, s0, s1, s2, buf[..], at, keys, r);
  }

  /** The part the round of the first key does without. */
  method InvOtherHalf(buf: array<bv8>, at: nat, keys: Keys, r: nat, ghost was: Bytes)
    requires at + 16 <= buf.Length && 1 <= r < ROUNDS && Stripped(was, buf[..], at, keys, r)
    modifies buf
    ensures Unwound(was, buf[..], at, keys, r - 1)
  {
    ghost var s0 := buf[..];
    InvMixColumns(buf, at);
    Unwinds(was, s0, buf[..], at, keys, r);
  }

  method InvFirstKey(buf: array<bv8>, at: nat, keys: Keys)
    requires at + 16 <= buf.Length
    modifies buf
    ensures Unwound(old(buf[..]), buf[..], at, keys, ROUNDS - 1)
  {
    AddRoundKey(buf, at, keys, ROUNDS);
  }

  method InvCipher(buf: array<bv8>, at: nat, keys: Keys)
    requires at + 16 <= buf.Length
    modifies buf
    ensures Became(old(buf[..]), buf[..], at, Deciphered(At(old(buf[..]), at), keys))
  {
    InvFirstKey(buf, at, keys);
    var round := ROUNDS - 1;
    while true
      invariant 0 <= round < ROUNDS && Unwound(old(buf[..]), buf[..], at, keys, round)
      decreases round
    {
      InvHalfRound(buf, at, keys, round, old(buf[..]));
      if round == 0 {
        break;
      }
      InvOtherHalf(buf, at, keys, round, old(buf[..]));
      round := round - 1;
    }
  }
}
