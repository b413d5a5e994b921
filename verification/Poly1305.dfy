/** crypto_onetimeauth of tweetnacl.c: seventeen 8-bit limbs held in 32-bit words.
    Every accumulator has type u32, so the verifier proves that no sum wraps. */
module Poly1305 {
  import opened Digits

  const PRIME: nat := 0x3_ffff_ffff_ffff_ffff_ffff_ffff_ffff_fffb   // 2^130 - 5

  ghost function Num(s: seq<int>): int { Value(s, 256) }

  lemma Sizes()
    ensures Pow(256, 16) == 0x1_0000_0000_0000_0000_0000_0000_0000_0000
    ensures 4 * Pow(256, 16) == PRIME + 5
    ensures Pow(256, 17) == 64 * PRIME + 320
  {
    assert Pow(256, 2) == 65536;
    PowAdd(256, 2, 2);
    PowAdd(256, 4, 4);
    PowAdd(256, 8, 8);
  }

  // ---- section 2.5 of RFC 8439 ----

  ghost function BlockStep(acc: int, block: int, r: int): nat { ((acc + block) * r) % PRIME }

  /** The accumulator after the blocks of m, starting from acc. */
  ghost function Fold(m: seq<byte>, r: nat, acc: nat): nat
  {
    if m == [] then acc
    else
      var n := if |m| < 16 then |m| else 16;
      ValueBound(m[..n], 256);
      Fold(m[n..], r, BlockStep(acc, Num(m[..n]) + Pow(256, n), r))
  }

  function ClampByte(i: nat, b: byte): byte
  {
    if i == 3 || i == 7 || i == 11 || i == 15 then ((b as bv8) & 15) as int
    else if i == 4 || i == 8 || i == 12 then ((b as bv8) & 252) as int
    else b
  }

  ghost function ClampKey(k: seq<byte>): (r: seq<byte>)
    requires |k| == 32
    ensures |r| == 16
  {
    seq(16, i requires 0 <= i < 16 => ClampByte(i, k[i]))
  }

  ghost function Tag(m: seq<byte>, k: seq<byte>): int
    requires |k| == 32
  {
    ValueBound(ClampKey(k), 256);
    (Fold(m, Num(ClampKey(k)), 0) + Num(k[16..])) % 0x1_0000_0000_0000_0000_0000_0000_0000_0000
  }

  // ---- add1305 ----

  method Add1305(h: array<u32>, c: array<u32>)
    requires h.Length == 17 && c.Length == 17 && h != c
    requires forall j :: 0 <= j < 17 ==> h[j] <= 0x4000_0000 && c[j] <= 0x4000_0000
    modifies h
    ensures Canonical(h[..], 256)
    ensures Num(h[..]) == (Num(old(h[..])) + Num(old(c[..]))) % (64 * PRIME + 320)
  {
    ghost var hs: seq<int>, cs: seq<int> := h[..], c[..];
    ghost var s := seq(17, i requires 0 <= i < 17 => hs[i] + cs[i]);
    var u: u32 := 0;
    for j := 0 to 17
      invariant forall k :: 0 <= k < j ==> h[k] == Low(s, 256, k)
      invariant forall k :: j <= k < 17 ==> h[k] == hs[k]
      invariant u == if j == 0 then 0 else Carry(s, 256, j - 1)
      invariant u <= 0x100_0000
    {
      u := u + h[j] + c[j];
      assert u == Into(s, 256, j);
      h[j] := u % 256;
      u := u / 256;
    }
    assert h[..] == Lows(s, 256, 17);
    SumModulo(hs, cs, s);
  }

  lemma SumModulo(a: seq<int>, c: seq<int>, s: seq<int>)
    requires |a| == |c| == |s| == 17 && forall i :: 0 <= i < 17 ==> s[i] == a[i] + c[i]
    ensures Canonical(Lows(s, 256, 17), 256)
    ensures Num(Lows(s, 256, 17)) == (Num(a) + Num(c)) % (64 * PRIME + 320)
  {
    ValueAddScaled(a, c, s, 1, 256);
    CarryPrefix(s, 256, 17);
    assert s[..17] == s;
    ValueBound(Lows(s, 256, 17), 256);
    Sizes();
    DivModUnique(Num(s), Carry(s, 256, 16), Num(Lows(s, 256, 17)), 64 * PRIME + 320);
  }

  // ---- multiplication by r ----

  /** Row j of the product: r shifted up by j limbs, what overflows re-entering times 320. */
  function Coefficient(r: seq<int>, i: nat, j: nat): int
    requires |r| == 17 && i < 17 && j < 17
  {
    if j <= i then r[i - j] else 320 * r[i + 17 - j]
  }

  ghost function Row(r: seq<int>, j: nat): (s: seq<int>)
    requires |r| == 17 && j < 17
    ensures |s| == 17
  {
    seq(17, i requires 0 <= i < 17 => Coefficient(r, i, j))
  }

  /** Shifting up one limb multiplies by 256 modulo the prime. */
  lemma RowShift(s: seq<int>, t: seq<int>)
    requires |s| == 17 && t == [320 * s[16]] + s[..16]
    ensures Num(t) % PRIME == (256 * Num(s)) % PRIME
  {
    assert t[1..] == s[..16];
    ValuePrefix(s, 16, 256);
    assert s[..17] == s;
    Sizes();
    assert 256 * Num(s) == Num(t) + (64 * s[16]) * PRIME by {
      assert 256 * Pow(256, 16) == Pow(256, 17);
      RowAlgebra(s[16], Pow(256, 16), PRIME);
    }
    ModAddMultiple(Num(t), 64 * s[16], PRIME);
  }

  lemma RowAlgebra(x: int, w: int, p: int)
    requires 256 * w == 64 * p + 320
    ensures 256 * (x * w) == 320 * x + (64 * x) * p
  {
    assert 256 * (x * w) == x * (256 * w);
  }

  lemma {:induction false} RowNum(r: seq<int>, j: nat)
    requires |r| == 17 && j < 17
    ensures Num(Row(r, j)) % PRIME == (Pow(256, j) * Num(r)) % PRIME
  {
    if j == 0 {
      assert Row(r, 0) == r;
    } else {
      RowNum(r, j - 1);
      var s := Row(r, j - 1);
      assert Row(r, j) == [320 * s[16]] + s[..16];
      RowShift(s, Row(r, j));
      ModMulLeft(Num(s), Pow(256, j - 1) * Num(r), 256, PRIME);
      Assoc(256, Pow(256, j - 1), Num(r));
    }
  }

  /** Column i summed over the first n limbs of h. */
  ghost function Column(h: seq<int>, r: seq<int>, i: nat, n: nat): int
    requires |h| == 17 && |r| == 17 && i < 17 && n <= 17
  {
    if n == 0 then 0 else Column(h, r, i, n - 1) + h[n - 1] * Coefficient(r, i, n - 1)
  }

  ghost function Columns(h: seq<int>, r: seq<int>, n: nat): (s: seq<int>)
    requires |h| == 17 && |r| == 17 && n <= 17
    ensures |s| == 17
  {
    seq(17, i requires 0 <= i < 17 => Column(h, r, i, n))
  }

  lemma {:induction false} ColumnsNum(h: seq<int>, r: seq<int>, n: nat)
    requires |h| == 17 && |r| == 17 && n <= 17
    ensures Num(Columns(h, r, n)) % PRIME == (Num(h[..n]) * Num(r)) % PRIME
  {
    if n == 0 {
      ValueZeros(Columns(h, r, 0), 256);
      assert h[..0] == [];
    } else {
      var c, row, x := Columns(h, r, n - 1), Row(r, n - 1), h[n - 1];
      ColumnsNum(h, r, n - 1);
      ValueAddScaled(c, row, Columns(h, r, n), x, 256);
      RowNum(r, n - 1);
      ModMulLeft(Num(row), Pow(256, n - 1) * Num(r), x, PRIME);
      ValuePrefix(h, n - 1, 256);
      ColumnStep(Num(c), Num(row), Num(h[..n - 1]), x, Pow(256, n - 1), Num(r));
    }
  }

  lemma ColumnStep(c: int, row: int, h: int, x: int, p: int, r: int)
    requires c % PRIME == (h * r) % PRIME && (row * x) % PRIME == (p * r * x) % PRIME
    ensures (c + x * row) % PRIME == ((h + x * p) * r) % PRIME
  {
    ModAdd(c, x * row, PRIME);
    ModAdd(h * r, p * r * x, PRIME);
    Distribute(r, h, x * p);
    assert r * (x * p) == p * r * x by { Rotate(r, x, p); assert p * r * x == x * (r * p); }
  }

  lemma {:induction false} ColumnBound(h: seq<int>, r: seq<int>, i: nat, n: nat)
    requires |h| == 17 && |r| == 17 && i < 17 && n <= 17 && Canonical(h, 256) && Canonical(r, 256)
    ensures 0 <= Column(h, r, i, n) <= n * 20808000
  {
    if n > 0 {
      ColumnBound(h, r, i, n - 1);
      TermBound(h[n - 1], Coefficient(r, i, n - 1));
    }
  }

  lemma TermBound(x: int, y: int)
    requires 0 <= x < 256 && 0 <= y <= 81600
    ensures 0 <= x * y <= 20808000
  {
    Mono(x, 0, y);
    Mono(x, y, 81600);
  }

  /** x := h * r by columns, each 17-term sum below 2^32. */
  method MulColumns(x: array<u32>, h: array<u32>, r: array<u32>)
    requires x.Length == 17 && h.Length == 17 && r.Length == 17 && x != h && x != r
    requires Canonical(h[..], 256) && Canonical(r[..], 256)
    modifies x
    ensures x[..] == Columns(old(h[..]), old(r[..]), 17)
  {
    ghost var hs: seq<int>, rs: seq<int> := h[..], r[..];
    for i := 0 to 17
      invariant forall k :: 0 <= k < i ==> x[k] == Column(hs, rs, k, 17)
    {
      x[i] := 0;
      for j := 0 to 17
        invariant forall k :: 0 <= k < i ==> x[k] == Column(hs, rs, k, 17)
        invariant x[i] == Column(hs, rs, i, j)
      {
        ColumnBound(hs, rs, i, j);
        var f: u32 := if j <= i then r[i - j] else 320 * r[i + 17 - j];
        TermBound(h[j], f);
        var product: u32 := h[j] * f;
        x[i] := x[i] + product;
      }
    }
  }

  // ---- the two carry passes ----

  /** First pass: sixteen digits, then the top limb cut at bit 130 with the rest times 5 to come. */
  ghost function Cut(x: seq<int>): (s: seq<int>)
    requires |x| == 17
    ensures |s| == 17
  {
    Lows(x, 256, 16) + [Into(x, 256, 16) % 4]
  }

  ghost function Excess(x: seq<int>): int
    requires |x| == 17
  {
    5 * (Into(x, 256, 16) / 4)
  }

  lemma CutNum(x: seq<int>)
    requires |x| == 17
    ensures (Num(Cut(x)) + Excess(x)) % PRIME == Num(x) % PRIME
  {
    var t := Into(x, 256, 16);
    var q := t / 4;
    CarryPrefix(x, 256, 16);
    ValuePrefix(x, 16, 256);
    assert x[..17] == x;
    ValueSnoc(Lows(x, 256, 16), t % 4, 256);
    Sizes();
    assert t == x[16] + Carry(x, 256, 15);
    CutAlgebra(x[16], Carry(x, 256, 15), q, t % 4, Pow(256, 16), PRIME);
    assert Num(x) == Num(Cut(x)) + Excess(x) + q * PRIME;
    ModAddMultiple(Num(Cut(x)) + Excess(x), q, PRIME);
  }

  lemma CutAlgebra(x: int, c: int, q: int, m: int, w: int, p: int)
    requires x + c == 4 * q + m && 4 * w == p + 5
    ensures x * w + c * w == m * w + 5 * q + q * p
  {
    Distribute(w, x, c);
    Distribute(w, 4 * q, m);
    assert w * (4 * q) == q * (4 * w);
    Distribute(q, p, 5);
  }

  /** Second pass: the digits of the cut number plus its excess; the top limb keeps its carry. */
  ghost function Settled(s: seq<int>): (t: seq<int>)
    requires |s| == 17
    ensures |t| == 17
  {
    Lows(s, 256, 16) + [Into(s, 256, 16)]
  }

  lemma SettledNum(s: seq<int>)
    requires |s| == 17
    ensures Num(Settled(s)) == Num(s)
  {
    CarryPrefix(s, 256, 16);
    ValuePrefix(s, 16, 256);
    assert s[..17] == s;
    ValueSnoc(Lows(s, 256, 16), Into(s, 256, 16), 256);
    Distribute(Pow(256, 16), s[16], Carry(s, 256, 15));
  }

  lemma {:induction false} SettledCarry(s: seq<int>, i: nat)
    requires |s| == 17 && 0 <= s[0] < 0x4000_0000 && (forall k :: 1 <= k < 16 ==> 0 <= s[k] < 256) && 3 <= i < 16
    ensures 0 <= Carry(s, 256, i) <= 1
  {
    if i == 3 {
      assert 0 <= Carry(s, 256, 0) <= 0x40_0000;
      assert 0 <= Carry(s, 256, 1) <= 0x4001;
      assert 0 <= Carry(s, 256, 2) <= 65;
    } else {
      SettledCarry(s, i - 1);
    }
  }

  /** What the accumulator satisfies between blocks. */
  ghost predicate Loose(h: seq<int>)
  {
    |h| == 17 && (forall k :: 0 <= k < 16 ==> 0 <= h[k] < 256) && 0 <= h[16] <= 4
  }

  method Carry1305(h: array<u32>)
    requires h.Length == 17 && forall k :: 0 <= k < 17 ==> h[k] <= 0x1600_0000
    modifies h
    ensures Loose(h[..])
    ensures Num(h[..]) % PRIME == Num(old(h[..])) % PRIME
  {
    ghost var x: seq<int> := h[..];
    var u: u32 := 0;
    for j := 0 to 16
      invariant forall k :: 0 <= k < j ==> h[k] == Low(x, 256, k)
      invariant forall k :: j <= k < 17 ==> h[k] == x[k]
      invariant u == (if j == 0 then 0 else Carry(x, 256, j - 1)) && u <= 0x20_0000
    {
      u := u + h[j];
      h[j] := u % 256;
      u := u / 256;
    }
    u := u + h[16];
    h[16] := u % 4;
    u := 5 * (u / 4);
    assert h[..] == Cut(x) && u == Excess(x);
    CutNum(x);
    ghost var s: seq<int> := h[..][0 := h[0] + u];
    ValueUpdate(h[..], 256, 0, h[0] + u);
    Settle(h, u, s);
  }

  method Settle(h: array<u32>, u0: u32, ghost s: seq<int>)
    requires h.Length == 17 && Loose(h[..]) && u0 < 0x3fff_0000 && s == h[..][0 := h[0] + u0] && h[16] <= 3
    modifies h
    ensures Loose(h[..]) && Num(h[..]) == Num(s)
  {
    ghost var hs: seq<int> := h[..];
    var u := u0;
    for j := 0 to 16
      invariant forall k :: 0 <= k < j ==> h[k] == Low(s, 256, k)
      invariant forall k :: j <= k < 17 ==> h[k] == hs[k]
      invariant u == (if j == 0 then u0 else Carry(s, 256, j - 1)) && u < 0x3fff_0000
    {
      u := u + h[j];
      assert u == Into(s, 256, j);
      h[j] := u % 256;
      u := u / 256;
    }
    u := u + h[16];
    h[16] := u;
    assert h[..] == Settled(s);
    SettledNum(s);
    SettledCarry(s, 15);
  }

  // ---- one block ----

  lemma TopLimb(h: seq<int>)
    requires |h| == 17 && Canonical(h[..16], 256)
    ensures h[16] * Pow(256, 16) <= Num(h) < (h[16] + 1) * Pow(256, 16)
    ensures Num(h) == Num(h[..16]) + h[16] * Pow(256, 16)
  {
    ValuePrefix(h, 16, 256);
    assert h[..17] == h;
    ValueBound(h[..16], 256);
    Distribute(Pow(256, 16), h[16], 1);
  }

  /** c := the next block of at most 16 bytes with a 1 after its last byte. */
  method LoadBlock(c: array<u32>, m: array<byte>, pos: nat) returns (j: nat)
    requires c.Length == 17 && pos < m.Length
    modifies c
    ensures j == (if m.Length - pos < 16 then m.Length - pos else 16) && m[..] == old(m[..])
    ensures Canonical(c[..], 256) && c[16] <= 1
    ensures Num(c[..]) == Num(m[pos..pos + j]) + Pow(256, j)
  {
    ghost var ms := m[..];
    for i := 0 to 17
      invariant m[..] == ms && forall k :: 0 <= k < i ==> c[k] == 0
    {
      c[i] := 0;
    }
    j := 0;
    while j < 16 && j < m.Length - pos
      invariant j <= 16 && j <= m.Length - pos && m[..] == ms
      invariant forall k :: 0 <= k < j ==> c[k] == ms[pos + k]
      invariant forall k :: j <= k < 17 ==> c[k] == 0
    {
      c[j] := m[pos + j];
      j := j + 1;
    }
    c[j] := 1;
    ghost var limbs: seq<int>, block: seq<int> := c[..], m[pos..pos + j];
    assert limbs[..j] == block;
    BlockNum(limbs, block);
  }

  lemma {:induction false} BlockNum(c: seq<int>, b: seq<int>)
    requires |b| < |c| && c[..|b|] == b && c[|b|] == 1 && forall k :: |b| < k < |c| ==> c[k] == 0
    ensures Num(c) == Num(b) + Pow(256, |b|)
  {
    if b == [] {
      ValueZeros(c[1..], 256);
    } else {
      assert c[1..][..|b| - 1] == b[1..] && c[0] == b[0];
      BlockNum(c[1..], b[1..]);
    }
  }

  /** h := (h + c) * r, reduced to Loose limbs. */
  method Absorb(h: array<u32>, c: array<u32>, r: array<u32>, x: array<u32>)
    requires h != c && h != r && h != x && c != x && r != x && c.Length == 17 && x.Length == 17
    requires Loose(h[..]) && Canonical(c[..], 256) && c[16] <= 1 && r.Length == 17 && Canonical(r[..], 256)
    modifies h, x
    ensures Loose(h[..])
    ensures Num(h[..]) % PRIME == BlockStep(Num(old(h[..])), Num(old(c[..])), Num(old(r[..])))
  {
    TopLimb(h[..]);
    TopLimb(c[..]);
    Sizes();
    ModReduced(Num(h[..]) + Num(c[..]), 64 * PRIME + 320);
    Add1305(h, c);
    ghost var hs: seq<int>, rs: seq<int> := h[..], r[..];
    MulColumns(x, h, r);
    ColumnsNum(hs, rs, 17);
    assert hs[..17] == hs;
    CopyLimbs(h, x);
    forall k | 0 <= k < 17
      ensures h[k] <= 0x1600_0000
    {
      ColumnBound(hs, rs, k, 17); assert h[..][k] == Columns(hs, rs, 17)[k];
    }
    Carry1305(h);
  }

  method CopyLimbs(h: array<u32>, x: array<u32>)
    requires h.Length == 17 && x.Length == 17
    modifies h
    ensures h[..] == old(x[..])
  {
    for i := 0 to 17
      invariant forall k :: 0 <= k < i ==> h[k] == old(x[k])
      invariant forall k :: i <= k < 17 ==> x[k] == old(x[k])
    {
      h[i] := x[i];
    }
  }

  lemma FoldStep(m: seq<byte>, r: nat, h: nat, c: int, h': nat)
    requires m != [] && r >= 0
    requires var n := if |m| < 16 then |m| else 16; c == Num(m[..n]) + Pow(256, n)
    requires h' % PRIME == BlockStep(h, c, r)
    ensures var n := if |m| < 16 then |m| else 16;
      Fold(m, r, h % PRIME) == Fold(m[n..], r, h' % PRIME)
  {
    ModAdd(h, c, PRIME);
    ModAdd(h % PRIME, c, PRIME);
    ModReduced(h % PRIME, PRIME);
    assert (h % PRIME + c) % PRIME == (h + c) % PRIME;
    ModMulLeft(h % PRIME + c, h + c, r, PRIME);
  }

  lemma LooseNonNegative(h: seq<int>)
    requires Loose(h)
    ensures Num(h) >= 0
  {
    ValueBound(h, 256);
  }

  method AbsorbNext(h: array<u32>, c: array<u32>, r: array<u32>, x: array<u32>, m: array<byte>, pos: nat, ghost rn: nat)
    returns (n: nat)
    requires h != c && h != r && h != x && c != x && r != x && c != r && c.Length == 17 && x.Length == 17
    requires Loose(h[..]) && r.Length == 17 && Canonical(r[..], 256) && pos < m.Length && rn == Num(r[..])
    modifies h, c, x
    ensures Loose(h[..]) && 0 < n <= m.Length - pos
    ensures Num(h[..]) >= 0 && Num(old(h[..])) >= 0
    ensures Fold(old(m[pos..]), rn, Num(old(h[..])) % PRIME) == Fold(old(m[pos + n..]), rn, Num(h[..]) % PRIME)
  {
    ghost var rest: seq<byte> := m[pos..];
    ghost var hn := Num(h[..]);
    LooseNonNegative(h[..]);
    n := LoadBlock(c, m, pos);
    ghost var cn := Num(c[..]);
    assert rest[..n] == m[pos..pos + n] && rest[n..] == m[pos + n..];
    Absorb(h, c, r, x);
    LooseNonNegative(h[..]);
    FoldStep(rest, rn, hn, cn, Num(h[..]));
  }

  /** The loop over the whole message. */
  method AbsorbAll(h: array<u32>, r: array<u32>, m: array<byte>, ghost rn: nat)
    requires h != r && h.Length == 17 && r.Length == 17 && Canonical(r[..], 256) && rn == Num(r[..])
    requires forall k :: 0 <= k < 17 ==> h[k] == 0
    modifies h
    ensures Loose(h[..])
    ensures Num(h[..]) % PRIME == Fold(old(m[..]), rn, 0)
  {
    var c, x := new u32[17], new u32[17];
    ghost var ms: seq<byte> := m[..];
    ValueZeros(h[..], 256);
    assert m[0..] == ms;
    var pos := 0;
    while pos < m.Length
      invariant 0 <= pos <= m.Length && Loose(h[..])
      invariant Fold(m[pos..], rn, Num(h[..]) % PRIME) == Fold(ms, rn, 0)
    {
      var n := AbsorbNext(h, c, r, x, m, pos, rn);
      pos := pos + n;
    }
  }

  // ---- final reduction ----

  /** h := h mod the prime, by adding 2^136 - prime and keeping the sum unless it went negative. */
  method Freeze(h: array<u32>)
    requires h.Length == 17 && Loose(h[..])
    modifies h
    ensures Loose(h[..]) && Num(h[..]) == Num(old(h[..])) % PRIME
  {
    var g, minusp := new u32[17], new u32[17](j => if j == 0 then 5 else if j == 16 then 252 else 0);
    CopyLimbs(g, h);
    ghost var v := Num(h[..]);
    MinusP(minusp[..]);
    TopLimb(h[..]);
    Sizes();
    FreezeCases(v);
    Add1305(h, minusp);
    TopLimb(h[..]);
    if h[16] / 128 == 1 {
      WrappedTop(h[..]);
      CopyLimbs(h, g);
    } else {
      PlainTop(h[..]);
    }
  }

  lemma MinusP(s: seq<int>)
    requires |s| == 17 && s[0] == 5 && s[16] == 252 && forall j :: 1 <= j < 16 ==> s[j] == 0
    ensures Num(s) == 63 * PRIME + 320
  {
    ValuePrefix(s, 16, 256);
    assert s[..17] == s;
    ValueZeros(s[..16][1..], 256);
    Sizes();
  }

  lemma FreezeCases(v: int)
    requires 0 <= v < 2 * PRIME
    ensures v < PRIME ==> v % PRIME == v && (v + (63 * PRIME + 320)) % (64 * PRIME + 320) == v + 63 * PRIME + 320
    ensures v >= PRIME ==> v % PRIME == v - PRIME && (v + (63 * PRIME + 320)) % (64 * PRIME + 320) == v - PRIME
  {
    if v < PRIME {
      ModReduced(v, PRIME);
      ModReduced(v + (63 * PRIME + 320), 64 * PRIME + 320);
    } else {
      DivModUnique(v, 1, v - PRIME, PRIME);
      DivModUnique(v + (63 * PRIME + 320), 1, v - PRIME, 64 * PRIME + 320);
    }
  }

  /** A frozen difference below 2 * 256^16 has top limb at most 1; a wrapped one at least 252. */
  lemma PlainTop(h: seq<int>)
    requires |h| == 17 && Canonical(h, 256) && h[16] < 128
    ensures Num(h) < 63 * PRIME + 320
    ensures Num(h) < PRIME ==> h[16] <= 4
  {
    TopLimb(h);
    Sizes();
    Mono(Pow(256, 16), h[16] + 1, 128);
    if h[16] > 4 { Mono(Pow(256, 16), 5, h[16]); }
  }

  lemma WrappedTop(h: seq<int>)
    requires |h| == 17 && Canonical(h, 256) && h[16] >= 128
    ensures Num(h) >= 2 * PRIME
  {
    TopLimb(h);
    Sizes();
    Mono(Pow(256, 16), 128, h[16]);
  }

  // ---- crypto_onetimeauth ----

  method LoadKey(k: array<byte>) returns (r: array<u32>, c: array<u32>)
    requires k.Length == 32
    ensures fresh(r) && fresh(c) && r != c && r.Length == 17 && c.Length == 17
    ensures Canonical(r[..], 256) && Num(r[..]) == Num(ClampKey(k[..]))
    ensures Canonical(c[..], 256) && c[16] == 0 && Num(c[..]) == Num(k[16..])
  {
    r, c := new u32[17], new u32[17];
    for j := 0 to 16
      invariant forall i :: 0 <= i < j ==> r[i] == ClampByte(i, k[i]) && c[i] == k[16 + i]
    {
      r[j] := ClampByte(j, k[j]);
      c[j] := k[j + 16];
    }
    r[16], c[16] := 0, 0;
    assert r[..] == ClampKey(k[..]) + [0];
    assert c[..] == k[16..] + [0];
    ValueSnoc(ClampKey(k[..]), 0, 256);
    ValueSnoc(k[16..], 0, 256);
  }

  /** Add the second half of the key and keep the low 128 bits. */
  method Finish(out: array<byte>, h: array<u32>, c: array<u32>)
    requires out.Length == 16 && h != c && Loose(h[..]) && c.Length == 17 && Canonical(c[..], 256) && c[16] == 0
    modifies out, h
    ensures Num(out[..]) == (Num(old(h[..])) + Num(old(c[..]))) % 0x1_0000_0000_0000_0000_0000_0000_0000_0000
  {
    TopLimb(h[..]);
    TopLimb(c[..]);
    Sizes();
    ModReduced(Num(h[..]) + Num(c[..]), 64 * PRIME + 320);
    Add1305(h, c);
    TopLimb(h[..]);
    ValueBound(h[..16], 256);
    DivModUnique(Num(h[..]), h[16], Num(h[..16]), Pow(256, 16));
    ghost var low: seq<int> := h[..16];
    for j := 0 to 16
      invariant h[..16] == low && forall i :: 0 <= i < j ==> out[i] == low[i]
    {
      out[j] := h[j];
    }
    assert out[..] == low;
  }

  method OneTimeAuth(out: array<byte>, m: array<byte>, k: array<byte>)
    requires out.Length == 16 && k.Length == 32
    modifies out
    ensures Num(out[..]) == Tag(old(m[..]), old(k[..]))
  {
    var r, c := LoadKey(k);
    var h := new u32[17](j => 0);
    ValueBound(r[..], 256);
    AbsorbAll(h, r, m, Num(r[..]));
    Freeze(h);
    Finish(out, h, c);
  }
}
