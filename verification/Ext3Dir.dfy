/** The directory block of ext3fs.c: ext3_rebuild_dirblock and ext3_write_dirent build it,
    ext3_read_dir_entries_from_block parses it. */
module Ext3Dir {
  import opened Digits
  import opened Ext3Bytes

  /** A dentry to be written; the name sits at the start of a buffer that may be longer. */
  datatype Dentry = Dentry(ino: u32, namelen: byte, filetype: byte, buffer: Bytes)

  /** A dentry as parsed. */
  datatype Entry = Entry(ino: u32, reclen: nat, filetype: byte, name: Bytes)

  /** ext3_padded_name_len */
  function Padded(len: nat): (n: nat)
    ensures len <= n < len + 4 && n % 4 == 0
  {
    if len % 4 != 0 then len + 4 - len % 4 else len
  }

  ghost predicate Buffered(d: Dentry) { Padded(d.namelen) <= |d.buffer| }

  function Short(d: Dentry): nat { 8 + Padded(d.namelen) }

  ghost function Total(ds: seq<Dentry>): nat
  {
    if ds == [] then 0 else Short(ds[0]) + Total(ds[1..])
  }

  ghost predicate Fits(ds: seq<Dentry>, offset: nat)
  {
    offset + Total(ds) <= BLOCK && forall k :: 0 <= k < |ds| ==> Buffered(ds[k])
  }

  // ---- the layout ----

  function Zeroes(n: nat): (z: Bytes)
    ensures |z| == n && forall k :: 0 <= k < n ==> z[k] == 0
  {
    seq(n, k => 0)
  }

  function Header(d: Dentry, reclen: nat): (h: Bytes)
    requires reclen <= BLOCK
    ensures |h| == 8
  {
    [WordByte(d.ino, 0), WordByte(d.ino, 1), WordByte(d.ino, 2), WordByte(d.ino, 3), reclen % 256, reclen / 256,
    d.namelen, d.filetype]
  }

  ghost function Record(d: Dentry, reclen: nat): (r: Bytes)
    requires Buffered(d) && Short(d) <= reclen <= BLOCK
    ensures |r| == reclen
  {
    Header(d, reclen) + d.buffer[..Padded(d.namelen)] + Zeroes(reclen - Short(d))
  }

  /** The length the last record is stretched to. */
  ghost function RecLen(ds: seq<Dentry>, offset: nat): nat
    requires ds != [] && Fits(ds, offset)
  {
    if |ds| == 1 then BLOCK - offset else Short(ds[0])
  }

  ghost function Layout(ds: seq<Dentry>, offset: nat): (r: Bytes)
    requires Fits(ds, offset)
    ensures |r| == BLOCK - offset
  {
    if ds == [] then Zeroes(BLOCK - offset)
    else Record(ds[0], RecLen(ds, offset)) + Layout(ds[1..], offset + RecLen(ds, offset))
  }

  /** What the parser should find, in block order. */
  ghost function EntriesOf(ds: seq<Dentry>, offset: nat): (es: seq<Entry>)
    requires Fits(ds, offset)
    ensures |es| == |ds|
  {
    if ds == [] then []
    else [EntryOf(ds[0], RecLen(ds, offset))] + EntriesOf(ds[1..], offset + RecLen(ds, offset))
  }

  ghost function EntryOf(d: Dentry, reclen: nat): Entry
    requires Buffered(d)
  {
    Entry(d.ino, reclen, d.filetype, d.buffer[..d.namelen])
  }

  ghost function RecLens(es: seq<Entry>): int
  {
    if es == [] then 0 else es[0].reclen + RecLens(es[1..])
  }

  // ---- building ----

  method Memset(block: array<byte>, at: nat, n: nat)
    requires at + n <= block.Length
    modifies block
    ensures block[..] == old(block[..at]) + Zeroes(n) + old(block[at + n..])
  {
    var k := 0;
    while k < n
      invariant k <= n && forall j :: 0 <= j < block.Length ==>
        block[j] == if at <= j < at + k then 0 else old(block[j])
    {
      block[at + k] := 0;
      k := k + 1;
    }
  }

  method Memcpy(block: array<byte>, at: nat, d: Bytes)
    requires at + |d| <= block.Length
    modifies block
    ensures block[..] == old(block[..at]) + d + old(block[at + |d|..])
  {
    var k := 0;
    while k < |d|
      invariant k <= |d| && forall j :: 0 <= j < block.Length ==>
        block[j] == if at <= j < at + k then d[j - at] else old(block[j])
    {
      block[at + k] := d[k];
      k := k + 1;
    }
  }

  /** ext3_write_dirent */
  method WriteDirent(block: array<byte>, at: nat, d: Dentry, reclen: nat)
    requires Buffered(d) && Short(d) <= reclen <= BLOCK && at + reclen <= block.Length
    modifies block
    ensures block[..] == old(block[..at]) + Record(d, reclen) + old(block[at + reclen..])
  {
    ghost var head, tail := block[..at], block[at + reclen..];
    Memset(block, at, reclen);
    Memcpy(block, at, Header(d, reclen));
    Memcpy(block, at + 8, d.buffer[..Padded(d.namelen)]);
    OverZeroes(head, Header(d, reclen), d.buffer[..Padded(d.namelen)], reclen, tail);
  }

  lemma OverZeroes(head: Bytes, h: Bytes, n: Bytes, reclen: nat, tail: Bytes)
    requires |h| + |n| <= reclen
    ensures var a := head + Zeroes(reclen) + tail; var b := a[..|head|] + h + a[|head| + |h|..];
      b[..|head| + |h|] + n + b[|head| + |h| + |n|..] == head + (h + n + Zeroes(reclen - |h| - |n|)) + tail
  {}

  lemma LayoutStep(ds: seq<Dentry>, offset: nat, done: Bytes)
    requires ds != [] && Fits(ds, offset)
    ensures var n := RecLen(ds, offset);
      Short(ds[0]) <= n && offset + n <= BLOCK && Fits(ds[1..], offset + n) &&
      done + Layout(ds, offset) == done + Record(ds[0], n) + Layout(ds[1..], offset + n)
  {}

  /** The record goes where the zeroed part of the block starts. */
  method AppendRecord(block: array<byte>, offset: nat, d: Dentry, reclen: nat)
    requires Buffered(d) && Short(d) <= reclen && offset + reclen <= block.Length == BLOCK &&
      block[offset..] == Zeroes(BLOCK - offset)
    modifies block
    ensures block[..offset + reclen] == old(block[..offset]) + Record(d, reclen)
    ensures block[offset + reclen..] == Zeroes(BLOCK - offset - reclen)
  {
    assert block[offset + reclen..] == block[offset..][reclen..] == Zeroes(BLOCK - offset - reclen);
    WriteDirent(block, offset, d, reclen);
  }

  /** Records up to offset are in place, the rest of the block is zero. */
  ghost predicate Built(block: Bytes, ds: seq<Dentry>, k: nat, offset: nat)
  {
    && |block| == BLOCK && k <= |ds| && offset <= BLOCK && Fits(ds, 0) && Fits(ds[k..], offset)
    && block[..offset] + Layout(ds[k..], offset) == Layout(ds, 0) && block[offset..] == Zeroes(BLOCK - offset)
  }

  lemma BuiltStep(block: Bytes, ds: seq<Dentry>, k: nat, offset: nat, n: nat, block': Bytes)
    requires Built(block, ds, k, offset) && k < |ds| && n == (if k + 1 == |ds| then BLOCK - offset else Short(ds[k]))
    requires |block'| == BLOCK && offset + n <= BLOCK && Short(ds[k]) <= n
    requires block'[..offset + n] == block[..offset] + Record(ds[k], n) &&
      block'[offset + n..] == Zeroes(BLOCK - offset - n)
    ensures Built(block', ds, k + 1, offset + n)
  {
    LayoutStep(ds[k..], offset, block[..offset]);
    assert ds[k..][1..] == ds[k + 1..];
  }

  lemma BuiltDone(block: Bytes, ds: seq<Dentry>, offset: nat)
    requires Built(block, ds, |ds|, offset)
    ensures block == Layout(ds, 0)
  {
    assert block == block[..offset] + block[offset..];
  }

  lemma NextFits(block: Bytes, ds: seq<Dentry>, k: nat, offset: nat)
    requires Built(block, ds, k, offset) && k < |ds|
    ensures Buffered(ds[k]) && offset + Short(ds[k]) <= BLOCK
  {
    LayoutStep(ds[k..], offset, []);
  }

  /** ext3_rebuild_dirblock */
  method Rebuild(block: array<byte>, ds: seq<Dentry>)
    requires block.Length == BLOCK && Fits(ds, 0)
    modifies block
    ensures block[..] == Layout(ds, 0)
  {
    Memset(block, 0, BLOCK);
    var offset, k := 0, 0;
    BuiltStart(block[..], ds);
    while k < |ds|
      invariant 0 <= k <= |ds| && 0 <= offset && Built(block[..], ds, k, offset)
    {
      NextFits(block[..], ds, k, offset);
      var reclen := 8 + Padded(ds[k].namelen);
      if k + 1 == |ds| { reclen := BLOCK - offset; }
      ghost var before := block[..];
      assert block[offset..] == before[offset..];
      AppendRecord(block, offset, ds[k], reclen);
      BuiltStep(before, ds, k, offset, reclen, block[..]);
      offset := offset + reclen;
      k := k + 1;
    }
    BuiltDone(block[..], ds, offset);
  }

  lemma BuiltStart(block: Bytes, ds: seq<Dentry>)
    requires |block| == BLOCK && Fits(ds, 0) && block == [] + Zeroes(BLOCK) + []
    ensures Built(block, ds, 0, 0)
  {
    assert ds[0..] == ds;
  }

  // ---- parsing ----

  function Half(b: Bytes, at: nat): nat
    requires at + 2 <= |b|
  {
    b[at] as int + 256 * b[at + 1] as int
  }

  function Word(b: Bytes, at: nat): u32
    requires at + 4 <= |b|
  {
    WordOf(b[at], b[at + 1], b[at + 2], b[at + 3])
  }

  /** The name of the record at p, which must lie in the block. */
  predicate NameInside(b: Bytes, p: nat)
    requires p + 8 <= |b|
  {
    p + 8 + b[p + 6] as int <= |b|
  }

  function EntryAt(b: Bytes, p: nat): Entry
    requires p + 8 <= |b| && NameInside(b, p)
  {
    Entry(Word(b, p), Half(b, p + 4), b[p + 7], b[p + 8..p + 8 + b[p + 6] as int])
  }

  /** A record starts at sum that the parser takes. */
  predicate Takes(b: Bytes, limit: int, sum: nat)
  {
    sum + 8 <= limit <= |b| && Half(b, sum + 4) >= 8 && sum + Half(b, sum + 4) <= limit
  }

  /** The parser only meets records whose names lie inside the block. */
  ghost predicate NamesInside(b: Bytes, limit: int, sum: nat)
    decreases limit - sum
  {
    Takes(b, limit, sum) ==> NameInside(b, sum) && NamesInside(b, limit, sum + Half(b, sum + 4))
  }

  ghost function Parsed(b: Bytes, limit: int, sum: nat): seq<Entry>
    requires NamesInside(b, limit, sum)
    decreases limit - sum
  {
    if Takes(b, limit, sum) then [EntryAt(b, sum)] + Parsed(b, limit, sum + Half(b, sum + 4)) else []
  }

  ghost function Reversed(es: seq<Entry>): (r: seq<Entry>)
    ensures |r| == |es|
  {
    if es == [] then [] else Reversed(es[1..]) + [es[0]]
  }

  lemma {:induction false} ReversedAt(es: seq<Entry>, k: nat)
    requires k < |es|
    ensures Reversed(es)[k] == es[|es| - 1 - k]
  {
    if k < |es| - 1 { ReversedAt(es[1..], k); }
  }

  lemma ParseStep(b: Bytes, limit: int, sum: nat, list: seq<Entry>)
    requires NamesInside(b, limit, sum) && Takes(b, limit, sum)
    ensures var next := sum + Half(b, sum + 4);
      NamesInside(b, limit, next) &&
      Reversed(Parsed(b, limit, sum)) + list == Reversed(Parsed(b, limit, next)) + ([EntryAt(b, sum)] + list)
  {
    assert Parsed(b, limit, sum)[1..] == Parsed(b, limit, sum + Half(b, sum + 4));
  }

  lemma ParseStop(b: Bytes, limit: int, sum: nat, list: seq<Entry>)
    requires NamesInside(b, limit, sum) && !Takes(b, limit, sum)
    ensures Reversed(Parsed(b, limit, sum)) + list == list
  {}

  /** ext3_read_dir_entries_from_block: each entry goes to the front of the list. */
  method Parse(b: Bytes, limit: int) returns (list: seq<Entry>)
    requires |b| == BLOCK && NamesInside(b, if limit > BLOCK then BLOCK else limit, 0)
    ensures list == Reversed(Parsed(b, if limit > BLOCK then BLOCK else limit, 0))
  {
    list := [];
    if limit <= 0 { return; }
    var limit' := if limit > BLOCK then BLOCK else limit;
    var sum := 0;
    while sum + 8 <= limit'
      invariant 0 <= sum <= limit' && NamesInside(b, limit', sum)
      invariant Reversed(Parsed(b, limit', 0)) == Reversed(Parsed(b, limit', sum)) + list
      decreases limit' - sum
    {
      var len := Half(b, sum + 4);
      if len < 8 || sum + len > limit' { ParseStop(b, limit', sum, list); return; }
      ParseStep(b, limit', sum, list);
      list := [EntryAt(b, sum)] + list;
      sum := sum + len;
    }
    ParseStop(b, limit', sum, list);
  }

  // ---- the round trip ----

  lemma WordRoundTrip(w: u32)
    ensures WordOf(WordByte(w, 0), WordByte(w, 1), WordByte(w, 2), WordByte(w, 3)) == w
  {
    DivDiv(w, 0x100, 0x100);
    DivDiv(w, 0x1_0000, 0x100);
    var a, b, c := w / 0x100, w / 0x1_0000, w / 0x100_0000;
    assert w == 0x100 * a + w % 256 && a == 0x100 * b + a % 256 && b == 0x100 * c + b % 256 && c % 256 == c;
  }

  /** The fixed part of a record reads back. */
  lemma HeaderParses(b: Bytes, p: nat, d: Dentry, n: nat)
    requires n <= BLOCK && p + 8 <= |b| && b[p..p + 8] == Header(d, n)
    ensures Word(b, p) == d.ino && Half(b, p + 4) == n && b[p + 6] == d.namelen && b[p + 7] == d.filetype
  {
    var h := Header(d, n);
    var s := b[p..p + 8];
    assert b[p] == s[0] == h[0] && b[p + 1] == s[1] == h[1] && b[p + 2] == s[2] == h[2] && b[p + 3] == s[3] == h[3];
    assert b[p + 4] == s[4] == h[4] && b[p + 5] == s[5] == h[5] && b[p + 6] == s[6] == h[6] && b[p + 7] == s[7] == h[7];
    WordRoundTrip(d.ino);
  }

  lemma RecordSlices(b: Bytes, p: nat, d: Dentry, n: nat)
    requires |b| == BLOCK && Buffered(d) && Short(d) <= n && p + n <= BLOCK && b[p..p + n] == Record(d, n)
    ensures b[p..p + 8] == Header(d, n) && b[p + 8..p + 8 + d.namelen as int] == d.buffer[..d.namelen]
  {
    var r := Record(d, n);
    SliceOfSlice(b, p, n, 0, 8);
    SliceOfSlice(b, p, n, 8, 8 + d.namelen);
    assert r[0..8] == Header(d, n);
    NameSlice(Header(d, n), d.buffer[..Padded(d.namelen)], Zeroes(n - Short(d)), d.namelen);
    assert d.buffer[..Padded(d.namelen)][..d.namelen] == d.buffer[..d.namelen];
  }

  lemma SliceOfSlice(b: Bytes, p: nat, n: nat, x: nat, y: nat)
    requires x <= y <= n && p + n <= |b|
    ensures b[p..p + n][x..y] == b[p + x..p + y]
  {
    var s, t := b[p..p + n][x..y], b[p + x..p + y];
    assert |s| == |t| && forall k :: 0 <= k < |s| ==> s[k] == t[k];
  }

  lemma NameSlice(h: Bytes, s: Bytes, z: Bytes, n: nat)
    requires n <= |s|
    ensures (h + s + z)[|h|..|h| + n] == s[..n]
  {}

  lemma RecordParses(b: Bytes, p: nat, d: Dentry, n: nat)
    requires |b| == BLOCK && Buffered(d) && Short(d) <= n && p + n <= BLOCK && b[p..p + n] == Record(d, n)
    ensures Half(b, p + 4) == n && NameInside(b, p) && EntryAt(b, p) == EntryOf(d, n)
  {
    RecordSlices(b, p, d, n);
    HeaderParses(b, p, d, n);
  }

  lemma LayoutSplits(b: Bytes, ds: seq<Dentry>, p: nat)
    requires |b| == BLOCK && ds != [] && p <= BLOCK && Fits(ds, p) && b[p..] == Layout(ds, p)
    ensures var n := RecLen(ds, p);
      Short(ds[0]) <= n && p + n <= BLOCK && Fits(ds[1..], p + n) && b[p..p + n] == Record(ds[0], n) &&
      b[p + n..] == Layout(ds[1..], p + n)
  {
    LayoutStep(ds, p, []);
    var n := RecLen(ds, p);
    assert b[p..p + n] == b[p..][..n];
    assert b[p + n..] == b[p..][n..];
  }

  lemma {:induction false} LayoutParses(b: Bytes, ds: seq<Dentry>, p: nat)
    requires |b| == BLOCK && ds != [] && p <= BLOCK && Fits(ds, p) && b[p..] == Layout(ds, p)
    ensures NamesInside(b, BLOCK, p) && Parsed(b, BLOCK, p) == EntriesOf(ds, p)
    decreases |ds|
  {
    LayoutSplits(b, ds, p);
    var n, rest := RecLen(ds, p), ds[1..];
    RecordParses(b, p, ds[0], n);
    EntriesStep(ds, p, n, rest);
    if |ds| == 1 {
      ParsedLast(b, p, n);
    } else {
      LayoutParses(b, rest, p + n);
      ParsedStep(b, p, n);
    }
  }

  lemma EntriesStep(ds: seq<Dentry>, p: nat, n: nat, rest: seq<Dentry>)
    requires ds != [] && Fits(ds, p) && n == RecLen(ds, p) && rest == ds[1..] && Fits(rest, p + n)
    ensures EntriesOf(ds, p) == [EntryOf(ds[0], n)] + EntriesOf(rest, p + n)
    ensures |ds| == 1 ==> p + n == BLOCK && EntriesOf(ds, p) == [EntryOf(ds[0], n)]
    ensures |ds| > 1 ==> p + n < BLOCK
  {
    if |ds| > 1 { assert Total(rest) >= Short(rest[0]); }
  }

  lemma ParsedStep(b: Bytes, p: nat, n: nat)
    requires |b| == BLOCK && 8 <= n && p + n < BLOCK && Half(b, p + 4) == n && NameInside(b, p) &&
      NamesInside(b, BLOCK, p + n)
    ensures NamesInside(b, BLOCK, p) && Parsed(b, BLOCK, p) == [EntryAt(b, p)] + Parsed(b, BLOCK, p + n)
  {}

  lemma ParsedLast(b: Bytes, p: nat, n: nat)
    requires |b| == BLOCK && 8 <= n && p + n == BLOCK && Half(b, p + 4) == n && NameInside(b, p)
    ensures NamesInside(b, BLOCK, p) && Parsed(b, BLOCK, p) == [EntryAt(b, p)]
  {}

  /** Building a block from any list that fits and parsing it gives the entries back, in reverse; the records fill the
      block. */
  lemma RoundTrip(ds: seq<Dentry>)
    requires Fits(ds, 0)
    ensures NamesInside(Layout(ds, 0), BLOCK, 0) && Parsed(Layout(ds, 0), BLOCK, 0) == EntriesOf(ds, 0)
    ensures ds != [] ==> RecLens(EntriesOf(ds, 0)) == BLOCK
  {
    if ds != [] {
      LayoutParses(Layout(ds, 0), ds, 0);
      LengthsFill(ds, 0);
    }
  }

  lemma {:induction false} LengthsFill(ds: seq<Dentry>, offset: nat)
    requires ds != [] && Fits(ds, offset)
    ensures RecLens(EntriesOf(ds, offset)) == BLOCK - offset
    decreases |ds|
  {
    var n := RecLen(ds, offset);
    LayoutStep(ds, offset, []);
    assert EntriesOf(ds, offset)[1..] == EntriesOf(ds[1..], offset + n);
    if |ds| > 1 { LengthsFill(ds[1..], offset + n); }
  }

  /** Entry e carries what dentry d does. */
  ghost predicate Carries(e: Entry, d: Dentry)
  {
    d.namelen as int <= |d.buffer| && e.ino == d.ino && e.filetype == d.filetype && e.name == d.buffer[..d.namelen]
  }

  /** Rebuild, then parse: the caller's view. */
  method RebuildAndParse(block: array<byte>, ds: seq<Dentry>) returns (list: seq<Entry>)
    requires block.Length == BLOCK && Fits(ds, 0)
    modifies block
    ensures |list| == |ds| && forall k :: 0 <= k < |ds| ==> Carries(list[k], ds[|ds| - 1 - k])
  {
    Rebuild(block, ds);
    RoundTrip(ds);
    list := Parse(block[..], BLOCK);
    forall k | 0 <= k < |ds| ensures Carries(list[k], ds[|ds| - 1 - k]) {
      ReversedAt(EntriesOf(ds, 0), k);
      EntriesAt(ds, 0, |ds| - 1 - k);
    }
  }

  lemma {:induction false} EntriesAt(ds: seq<Dentry>, offset: nat, k: nat)
    requires Fits(ds, offset) && k < |ds|
    ensures Carries(EntriesOf(ds, offset)[k], ds[k])
    decreases |ds|
  {
    LayoutStep(ds, offset, []);
    if k > 0 { EntriesAt(ds[1..], offset + RecLen(ds, offset), k - 1); }
  }
}
