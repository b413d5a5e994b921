/** The CBC mode of aes.c, in place on a buffer. */
module AesCbc {
  import opened AesSteps
  import opened Aes
  import opened AesBuffer

  /** The first i bytes are chained; cur is what the next block is chained to. */
  ghost predicate Chaining(e: Block -> Block, iv: Block, was: Bytes, now: Bytes, length: nat, i: nat, cur: Block)
    requires length <= |was| && length % BLOCK == 0
  {
    && i % BLOCK == 0 && i <= length && |now| == |was|
    && Chained(e, iv, was[..length]) == now[..i] + Chained(e, cur, was[i..length])
    && now[i..] == was[i..] && cur == LastBlock(iv, now[..i])
  }

  lemma BlockTurned(was: Bytes, mid: Bytes, now: Bytes, i: nat, length: nat, c: Block)
    requires i + 16 <= length <= |was| && |mid| == |was| && mid[i..] == was[i..] && Became(mid, now, i, c)
    ensures now[..i + 16] == mid[..i] + c && now[i + 16..] == was[i + 16..]
    ensures was[i..length][..16] == was[i..i + 16] == At(mid, i) && was[i..length][16..] == was[i + 16..length]
  {
    assert forall k :: 0 <= k < 16 ==> now[i + k] == At(now, i)[k];
    assert forall k :: i <= k < |was| ==> mid[k] == mid[i..][k - i] && was[k] == was[i..][k - i];
  }

  lemma Chains(e: Block -> Block, iv: Block, was: Bytes, mid: Bytes, now: Bytes, length: nat, i: nat, cur: Block)
    requires length <= |was| && length % BLOCK == 0 && i < length && Chaining(e, iv, was, mid, length, i, cur)
    requires Became(mid, now, i, e(AddKey(At(mid, i), cur)))
    ensures Chaining(e, iv, was, now, length, i + 16, e(AddKey(At(mid, i), cur)))
  {
    var c := e(AddKey(At(mid, i), cur));
    BlockTurned(was, mid, now, i, length, c);
    Halves(mid[..i], c, Chained(e, c, was[i + 16..length]));
  }

  lemma Halves(a: Bytes, c: Block, rest: Bytes)
    ensures a + (c + rest) == (a + c) + rest && (a + c)[|a + c| - 16..] == c
  {}

  /** The first i bytes are unchained; cur is what the next block was chained to. */
  ghost predicate Unchaining(d: Block -> Block, iv: Block, was: Bytes, now: Bytes, length: nat, i: nat, cur: Block)
    requires length <= |was| && length % BLOCK == 0
  {
    && i % BLOCK == 0 && i <= length && |now| == |was|
    && Unchained(d, iv, was[..length]) == now[..i] + Unchained(d, cur, was[i..length])
    && now[i..] == was[i..] && cur == LastBlock(iv, was[..i])
  }

  lemma Unchains(d: Block -> Block, iv: Block, was: Bytes, mid: Bytes, now: Bytes, length: nat, i: nat, cur: Block)
    requires length <= |was| && length % BLOCK == 0 && i < length && Unchaining(d, iv, was, mid, length, i, cur)
    requires Became(mid, now, i, AddKey(d(At(mid, i)), cur))
    ensures Unchaining(d, iv, was, now, length, i + 16, At(mid, i))
  {
    var p := AddKey(d(At(mid, i)), cur);
    BlockTurned(was, mid, now, i, length, p);
    Halves(mid[..i], p, Unchained(d, At(mid, i), was[i + 16..length]));
    assert was[..i + 16][i..] == was[i..i + 16];
  }

  method XorWithIv(buf: array<bv8>, at: nat, iv: array<bv8>, from: nat)
    requires at + 16 <= buf.Length && from + 16 <= iv.Length && (iv != buf || from + 16 <= at)
    modifies buf
    ensures Became(old(buf[..]), buf[..], at, AddKey(At(old(buf[..]), at), At(old(iv[..]), from)))
  {
    ghost var was, key := buf[..], At(iv[..], from);
    var i := 0;
    while i < 16
      invariant 0 <= i <= 16
      invariant forall k :: 0 <= k < buf.Length ==>
        buf[k] == if at <= k < at + i then Xor(was[k], key[k - at]) else was[k]
      invariant forall k :: 0 <= k < 16 ==> iv[from + k] == key[k]
    {
      buf[at + i] := Xor(buf[at + i], iv[from + i]);
      i := i + 1;
    }
    BecameBytes(was, buf[..], at, AddKey(At(was, at), key));
  }

  method Copy(to: array<bv8>, from: array<bv8>, at: nat)
    requires to.Length == 16 && at + 16 <= from.Length && to != from
    modifies to
    ensures to[..] == At(from[..], at)
  {
    var i := 0;
    while i < 16
      invariant 0 <= i <= 16 && forall k :: 0 <= k < i ==> to[k] == from[at + k]
    {
      to[i] := from[at + i];
      i := i + 1;
    }
  }

  /** One block of the encryption: the block at i is chained to cur and enciphered. */
  method EncryptBlock(buf: array<bv8>, i: nat, keys: Keys, chain: array<bv8>, from: nat)
    requires i + 16 <= buf.Length && from + 16 <= chain.Length && (chain != buf || from + 16 <= i)
    modifies buf
    ensures Became(old(buf[..]), buf[..], i, Ciphered(AddKey(At(old(buf[..]), i), At(old(chain[..]), from)), keys))
  {
    ghost var s0 := buf[..];
    XorWithIv(buf, i, chain, from);
    ghost var s1 := buf[..];
    Cipher(buf, i, keys);
    BecameTwice(s0, s1, buf[..], i, At(s1, i), Ciphered(At(s1, i), keys));
  }

  method DecryptBlock(buf: array<bv8>, i: nat, keys: Keys, iv: array<bv8>)
    requires i + 16 <= buf.Length && iv.Length == 16 && iv != buf
    modifies buf
    ensures Became(old(buf[..]), buf[..], i, AddKey(Deciphered(At(old(buf[..]), i), keys), iv[..]))
  {
    ghost var s0 := buf[..];
    InvCipher(buf, i, keys);
    ghost var s1 := buf[..];
    XorWithIv(buf, i, iv, 0);
    assert At(iv[..], 0) == iv[..];
    BecameTwice(s0, s1, buf[..], i, At(s1, i), AddKey(At(s1, i), iv[..]));
  }

  /** AES_CBC_encrypt_buffer: the chaining value kept for the next call is the last block of ciphertext. */
  method CbcEncrypt(buf: array<bv8>, length: nat, keys: Keys, iv: array<bv8>)
    requires length <= buf.Length && length % BLOCK == 0 && iv.Length == 16 && iv != buf
    modifies buf, iv
    ensures buf[..length] == Chained(b => Ciphered(b, keys), old(iv[..]), old(buf[..length]))
    ensures buf[length..] == old(buf[length..])
    ensures iv[..] == LastBlock(old(iv[..]), buf[..length])
  {
    ghost var was, iv0 := buf[..], iv[..];
    ghost var e := (b: Block) => Ciphered(b, keys);
    var chain, from := iv, 0;
    assert At(iv[..], 0) == iv0 && was[..0] == [] && was[0..] == was;
    var i := 0;
    while i < length
      invariant i % BLOCK == 0 && i <= length && from + 16 <= chain.Length && iv[..] == iv0
      invariant (chain == iv && from == 0) || (chain == buf && from + 16 == i)
      invariant Chaining(e, iv0, was, buf[..], length, i, At(chain[..], from))
    {
      ghost var mid, cur := buf[..], At(chain[..], from);
      EncryptBlock(buf, i, keys, chain, from);
      Chains(e, iv0, was, mid, buf[..], length, i, cur);
      chain, from := buf, i;
      i := i + 16;
    }
    if chain != iv {
      Copy(iv, chain, from);
    }
  }

  /** AES_CBC_decrypt_buffer; it ends with the same chaining value as the encryption of what it returns. */
  method CbcDecrypt(buf: array<bv8>, length: nat, keys: Keys, iv: array<bv8>)
    requires length <= buf.Length && length % BLOCK == 0 && iv.Length == 16 && iv != buf
    modifies buf, iv
    ensures buf[..length] == Unchained(b => Deciphered(b, keys), old(iv[..]), old(buf[..length]))
    ensures buf[length..] == old(buf[length..])
    ensures iv[..] == LastBlock(old(iv[..]), old(buf[..length]))
  {
    ghost var was, iv0 := buf[..], iv[..];
    ghost var d := (b: Block) => Deciphered(b, keys);
    var next := new bv8[16];
    var i := 0;
    while i < length
      invariant i % BLOCK == 0 && i <= length
      invariant Unchaining(d, iv0, was, buf[..], length, i, iv[..])
    {
      ghost var mid, cur := buf[..], iv[..];
      Copy(next, buf, i);
      DecryptBlock(buf, i, keys, iv);
      Unchains(d, iv0, was, mid, buf[..], length, i, cur);
      Copy(iv, next, 0);
      assert At(next[..], 0) == next[..];
      i := i + 16;
    }
  }
}
