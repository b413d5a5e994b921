/** A disk block seen as 1024 little-endian words and as 4096 bytes. */
module Ext3Bytes {
  import opened Digits
  import opened Ext3Map

  const BLOCK := 4096      // BLOCK_SIZE

  type Bytes = seq<byte>

  function WordByte(w: int, k: nat): byte
    requires k < 4
  {
    (if k == 0 then w else if k == 1 then w / 0x100 else if k == 2 then w / 0x1_0000 else w / 0x100_0000) % 256
  }

  function WordOf(a: byte, b: byte, c: byte, d: byte): int
  {
    a + 0x100 * b + 0x1_0000 * c + 0x100_0000 * d
  }

  function ToBytes(w: Words): (b: Bytes)
    ensures |b| == 4 * |w|
  {
    seq(4 * |w|, o requires 0 <= o < 4 * |w| => WordByte(w[o / 4], o % 4))
  }

  function FromBytes(b: Bytes): (w: Words)
    requires |b| == BLOCK
    ensures |w| == PTRS
  {
    seq(PTRS, j requires 0 <= j < PTRS => WordOf(b[4 * j], b[4 * j + 1], b[4 * j + 2], b[4 * j + 3]))
  }

  lemma WordBytes(a: byte, b: byte, c: byte, d: byte)
    ensures var w := WordOf(a, b, c, d);
      WordByte(w, 0) == a && WordByte(w, 1) == b && WordByte(w, 2) == c && WordByte(w, 3) == d
  {}

  /** Bytes survive the trip through words. */
  lemma BytesRoundTrip(b: Bytes)
    requires |b| == BLOCK
    ensures ToBytes(FromBytes(b)) == b
  {
    forall o: nat | o < BLOCK ensures ToBytes(FromBytes(b))[o] == b[o] { ByteRoundTrip(b, o, o / 4, o % 4); }
  }

  lemma ByteRoundTrip(b: Bytes, o: nat, j: nat, k: nat)
    requires |b| == BLOCK && o < BLOCK && j == o / 4 && k == o % 4
    ensures ToBytes(FromBytes(b))[o] == b[o]
  {
    assert o == 4 * j + k && ToBytes(FromBytes(b))[o] == WordByte(FromBytes(b)[j], k);
    WordBytes(b[4 * j], b[4 * j + 1], b[4 * j + 2], b[4 * j + 3]);
  }

  function ZeroBytes(): (b: Bytes)
    ensures |b| == BLOCK && forall o :: 0 <= o < BLOCK ==> b[o] == 0
  {
    seq(BLOCK, o => 0)
  }

  /** memcpy of d over s at offset at. */
  function Spliced(s: Bytes, at: nat, d: Bytes): (r: Bytes)
    requires at + |d| <= |s|
    ensures |r| == |s| && forall o :: 0 <= o < |s| ==> r[o] == if at <= o < at + |d| then d[o - at] else s[o]
  {
    s[..at] + d + s[at + |d|..]
  }

  /** The bytes of logical block l of inode i; a hole reads as zeros. */
  ghost function Data(fs: Fs, i: nat, l: int): (b: Bytes)
    requires Inv(fs) && i < |fs.inodes|
    ensures |b| == BLOCK
  {
    if 0 < BlockOf(fs, i, l) < |fs.disk| then ToBytes(fs.disk[BlockOf(fs, i, l)]) else ZeroBytes()
  }

  ghost function FileByte(fs: Fs, i: nat, pos: nat): byte
    requires Inv(fs) && i < |fs.inodes|
  {
    Data(fs, i, pos / BLOCK)[pos % BLOCK]
  }
}
