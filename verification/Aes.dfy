/** The cipher of aes.c and its CBC mode as functions on blocks, and what undoes what. */
module Aes {
  import opened AesSteps

  const ROUNDS := 10       // Nr, for a key of 128 bits
  const BLOCK := 16        // AES_BLOCKLEN

  type Bytes = seq<bv8>

  // ---- the cipher on one block ----

  function AddKey(s: Block, k: Block): Block { seq(16, i requires 0 <= i < 16 => Xor(s[i], k[i])) }

  /** The byte k places down the column of byte i, around the column. */
  function Down(i: nat, k: nat): (j: nat)
    requires i < 16 && k < 4
    ensures j < 16 && j / 4 == i / 4
  {
    if i % 4 + k < 4 then i + k else i + k - 4
  }

  /** Every byte replaced by f of the bytes from it on, around its column. */
  function ByColumn<T>(f: (T, T, T, T) -> T, s: seq<T>): (r: seq<T>)
    requires |s| == 16
    ensures |r| == 16
  {
    seq(16, i requires 0 <= i < 16 => f(s[i], s[Down(i, 1)], s[Down(i, 2)], s[Down(i, 3)]))
  }

  function Mix(s: Block): Block { ByColumn(MixByte, s) }

  function InverseMix(s: Block): Block { ByColumn(UnmixByte, s) }

  lemma AddKeyInverse(s: Block, k: Block)
    ensures AddKey(AddKey(s, k), k) == s
  {
    forall i | 0 <= i < 16 ensures AddKey(AddKey(s, k), k)[i] == s[i] { TwiceXor(s[i], k[i]); }
  }

  lemma TwiceXor(a: bv8, k: bv8)
    ensures Xor(Xor(a, k), k) == a
  {}

  lemma DownAgain(i: nat)
    requires i < 16
    ensures var i1 := Down(i, 1); var i2 := Down(i, 2); var i3 := Down(i, 3);
      Down(i1, 1) == i2 && Down(i1, 2) == i3 && Down(i1, 3) == i && Down(i2, 1) == i3 && Down(i2, 2) == i &&
      Down(i2, 3) == i1 &&
      Down(i3, 1) == i && Down(i3, 2) == i1 && Down(i3, 3) == i2
  {}

  /** g recovers the first byte of a column from what f makes of it. */
  ghost predicate Recovers<T(!new)>(g: (T, T, T, T) -> T, f: (T, T, T, T) -> T)
  {
    forall a, b, c, d {:trigger f(a, b, c, d)} :: g(f(a, b, c, d), f(b, c, d, a), f(c, d, a, b), f(d, a, b, c)) == a
  }

  lemma ColumnsRecovered<T(!new)>(g: (T, T, T, T) -> T, f: (T, T, T, T) -> T, s: seq<T>, i: nat)
    requires |s| == 16 && Recovers(g, f) && i < 16
    ensures ByColumn(g, ByColumn(f, s))[i] == s[i]
  {
    var t := ByColumn(f, s);
    var i1, i2, i3 := Down(i, 1), Down(i, 2), Down(i, 3);
    DownAgain(i);
    assert t[i] == f(s[i], s[i1], s[i2], s[i3]) && t[i1] == f(s[i1], s[i2], s[i3], s[i]);
    assert t[i2] == f(s[i2], s[i3], s[i], s[i1]) && t[i3] == f(s[i3], s[i], s[i1], s[i2]);
  }

  lemma MixRoundTrip(s: Block)
    ensures InverseMix(Mix(s)) == s
  {
    forall a, b, c, d
      ensures UnmixByte(MixByte(a, b, c, d), MixByte(b, c, d, a), MixByte(c, d, a, b), MixByte(d, a, b, c)) == a
    {
      MixInverse(a, b, c, d);
    }
    forall i: nat | i < 16 ensures InverseMix(Mix(s))[i] == s[i] { ColumnsRecovered(UnmixByte, MixByte, s, i); }
  }

  /** An expanded key; any bytes will do. */
  type Keys = k: Bytes | |k| == 176 witness seq(176, i => 0)

  /** Round key r. */
  function Key(keys: Keys, r: nat): Block
    requires r <= ROUNDS
  {
    keys[16 * r..16 * r + 16]
  }

  /** The two steps every round starts with, and their inverses in the order the inverse cipher has them. */
  function Scramble(s: Block): Block { Shift(Sub(s)) }

  function Unscramble(s: Block): Block { InverseSub(InverseShift(s)) }

  /** The state after AddRoundKey of round r. */
  function Entered(s: Block, keys: Keys, r: nat): Block
    requires r < ROUNDS
  {
    if r == 0 then AddKey(s, Key(keys, 0))
    else AddKey(Mix(Scramble(Entered(s, keys, r - 1))), Key(keys, r))
  }

  /** Section 5.1 of FIPS 197, for any array of round keys. */
  function Ciphered(s: Block, keys: Keys): Block
  {
    AddKey(Scramble(Entered(s, keys, ROUNDS - 1)), Key(keys, ROUNDS))
  }

  /** The state of the inverse before InvShiftRows of the round that ends with round key r. */
  function Peeled(s: Block, keys: Keys, r: nat): Block
    requires r < ROUNDS
    decreases ROUNDS - r
  {
    if r == ROUNDS - 1 then AddKey(s, Key(keys, ROUNDS))
    else InverseMix(AddKey(Unscramble(Peeled(s, keys, r + 1)), Key(keys, r + 1)))
  }

  /** Section 5.3 of FIPS 197. */
  function Deciphered(s: Block, keys: Keys): Block
  {
    AddKey(Unscramble(Peeled(s, keys, 0)), Key(keys, 0))
  }

  lemma UndoSteps(s: Block)
    ensures Unscramble(Scramble(s)) == s
  {
    ShiftInverse(Sub(s));
    SubInverse(s);
  }

  /** The inverse retraces the cipher, round by round. */
  lemma {:induction false} Retraces(s: Block, keys: Keys, r: nat)
    requires r < ROUNDS
    ensures Peeled(Ciphered(s, keys), keys, r) == Scramble(Entered(s, keys, r))
    decreases ROUNDS - r
  {
    if r == ROUNDS - 1 {
      AddKeyInverse(Scramble(Entered(s, keys, r)), Key(keys, ROUNDS));
    } else {
      Retraces(s, keys, r + 1);
      UndoSteps(Entered(s, keys, r + 1));
      var mixed := Mix(Scramble(Entered(s, keys, r)));
      AddKeyInverse(mixed, Key(keys, r + 1));
      MixRoundTrip(Scramble(Entered(s, keys, r)));
    }
  }

  /** Decryption undoes encryption, for every block and every array of round keys. */
  lemma CipherRoundTrip(s: Block, keys: Keys)
    ensures Deciphered(Ciphered(s, keys), keys) == s
  {
    Retraces(s, keys, 0);
    UndoSteps(Entered(s, keys, 0));
    AddKeyInverse(s, Key(keys, 0));
  }

  // ---- chaining ----

  // CBC over any block cipher e, with d for its inverse.

  function Chained(e: Block -> Block, iv: Block, s: Bytes): (r: Bytes)
    requires |s| % BLOCK == 0
    ensures |r| == |s|
    decreases |s|
  {
    if s == [] then []
    else
      var c := e(AddKey(s[..16], iv));
      c + Chained(e, c, s[16..])
  }

  function Unchained(d: Block -> Block, iv: Block, s: Bytes): (r: Bytes)
    requires |s| % BLOCK == 0
    ensures |r| == |s|
    decreases |s|
  {
    if s == [] then []
    else AddKey(d(s[..16]), iv) + Unchained(d, s[..16], s[16..])
  }

  /** The chaining value a run over ciphertext c ends with. */
  function LastBlock(iv: Block, c: Bytes): Block
    requires |c| % BLOCK == 0
  {
    if c == [] then iv else c[|c| - 16..]
  }

  ghost predicate Undoes(d: Block -> Block, e: Block -> Block) { forall b {:trigger e(b)} :: d(e(b)) == b }

  lemma {:induction false} ChainRoundTrip(e: Block -> Block, d: Block -> Block, iv: Block, s: Bytes)
    requires |s| % BLOCK == 0 && Undoes(d, e)
    ensures Unchained(d, iv, Chained(e, iv, s)) == s
    decreases |s|
  {
    if s != [] {
      var c := e(AddKey(s[..16], iv));
      Halves(c, Chained(e, c, s[16..]));
      AddKeyInverse(s[..16], iv);
      ChainRoundTrip(e, d, c, s[16..]);
      assert s == s[..16] + s[16..];
    }
  }

  lemma Halves(c: Block, rest: Bytes)
    ensures (c + rest)[..16] == c && (c + rest)[16..] == rest
  {}

  /** CBC decryption undoes CBC encryption on any whole number of blocks. */
  lemma CbcRoundTrip(keys: Keys, iv: Block, s: Bytes)
    requires |s| % BLOCK == 0
    ensures Unchained(b => Deciphered(b, keys), iv, Chained(b => Ciphered(b, keys), iv, s)) == s
  {
    var e, d := (b: Block) => Ciphered(b, keys), (b: Block) => Deciphered(b, keys);
    forall b: Block ensures d(e(b)) == b { CipherRoundTrip(b, keys); }
    ChainRoundTrip(e, d, iv, s);
  }
}
