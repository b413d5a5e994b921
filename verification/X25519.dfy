/** Conditional swap, unpacking and canonical packing of the field elements of tweetnacl.c. */
module X25519 {
  import opened Digits
  import opened Field25519

  // ---- sel25519 ----

  // Bitwise operations on n-bit words.

  function XorBits(a: nat, b: nat, n: nat): (r: nat)
    ensures r < Pow(2, n)
  {
    if n == 0 then 0 else (a % 2 + b % 2) % 2 + 2 * XorBits(a / 2, b / 2, n - 1)
  }

  function AndBits(a: nat, b: nat, n: nat): (r: nat)
    ensures r < Pow(2, n)
  {
    if n == 0 then 0 else (a % 2) * (b % 2) + 2 * AndBits(a / 2, b / 2, n - 1)
  }

  lemma {:induction false} XorCommutes(p: nat, q: nat, n: nat)
    ensures XorBits(p, q, n) == XorBits(q, p, n)
  {
    if n > 0 { XorCommutes(p / 2, q / 2, n - 1); }
  }

  lemma LastBit(p: nat, q: nat, n: nat)
    requires n > 0
    ensures XorBits(p, q, n) % 2 == (p % 2 + q % 2) % 2 && XorBits(p, q, n) / 2 == XorBits(p / 2, q / 2, n - 1)
  {
    var bit, rest := (p % 2 + q % 2) % 2, XorBits(p / 2, q / 2, n - 1);
    DivModUnique(bit + 2 * rest, rest, bit, 2);
  }

  lemma BitCancels(a: nat, b: nat)
    requires a < 2 && b < 2
    ensures (a + (a + b) % 2) % 2 == b
  {}

  lemma {:induction false} XorCancels(p: nat, q: nat, n: nat)
    requires q < Pow(2, n)
    ensures XorBits(p, XorBits(p, q, n), n) == q
  {
    if n > 0 {
      XorCancels(p / 2, q / 2, n - 1);
      LastBit(p, q, n);
      BitCancels(p % 2, q % 2);
    }
  }

  lemma {:induction false} XorNothing(p: nat, n: nat)
    requires p < Pow(2, n)
    ensures XorBits(p, 0, n) == p
  {
    if n > 0 { XorNothing(p / 2, n - 1); }
  }

  lemma {:induction false} MaskAll(x: nat, n: nat)
    requires x < Pow(2, n)
    ensures AndBits(Pow(2, n) - 1, x, n) == x && AndBits(0, x, n) == 0
  {
    if n > 0 {
      MaskAll(x / 2, n - 1);
      assert Pow(2, n) - 1 == 2 * (Pow(2, n - 1) - 1) + 1;
    }
  }

  /** The masked exclusive-or exchanges two words under a mask of ones and keeps them under a mask of zeros. */
  lemma MaskedExchange(p: nat, q: nat, mask: nat, n: nat)
    requires p < Pow(2, n) && q < Pow(2, n) && (mask == 0 || mask == Pow(2, n) - 1)
    ensures var t := AndBits(mask, XorBits(p, q, n), n);
      (XorBits(p, t, n), XorBits(q, t, n)) == if mask == 0 then (p, q) else (q, p)
  {
    MaskAll(XorBits(p, q, n), n);
    XorCancels(p, q, n);
    XorCommutes(p, q, n);
    XorCancels(q, p, n);
    XorNothing(p, n);
    XorNothing(q, n);
  }

  const WORDS := 0x1_0000_0000_0000_0000

  lemma WordSize()
    ensures Pow(2, 64) == WORDS
  {
    assert Pow(2, 1) == 2;
    PowAdd(2, 1, 1);
    PowAdd(2, 2, 2);
    PowAdd(2, 4, 4);
    PowAdd(2, 8, 8);
    PowAdd(2, 16, 16);
    PowAdd(2, 32, 32);
  }

  /** The 64 bits of a signed word as a number, and back. */
  function ToBits(x: i64): nat { if x < 0 then x + WORDS else x }

  function FromBits(w: nat): i64
    requires w < WORDS
  {
    if w < WORDS / 2 then w else w - WORDS
  }

  /** One limb of sel25519, by masks and no branch. */
  method SelLimb(p: i64, q: i64, c: i64) returns (p': i64, q': i64)
    requires c == 0 || c == -1
    ensures (p', q') == if c == 0 then (p, q) else (q, p)
  {
    WordSize();
    MaskedExchange(ToBits(p), ToBits(q), ToBits(c), 64);
    var t := AndBits(ToBits(c), XorBits(ToBits(p), ToBits(q), 64), 64);
    p', q' := FromBits(XorBits(ToBits(p), t, 64)), FromBits(XorBits(ToBits(q), t, 64));
  }

  method Sel25519(p: array<i64>, q: array<i64>, b: int)
    requires p.Length == 16 && q.Length == 16 && p != q && (b == 0 || b == 1)
    modifies p, q
    ensures p[..] == if b == 1 then old(q[..]) else old(p[..])
    ensures q[..] == if b == 1 then old(p[..]) else old(q[..])
  {
    var c: i64 := -(b - 1) - 1;                      // complement of b - 1
    for i := 0 to 16
      invariant forall k :: 0 <= k < i ==> p[k] == (if b == 1 then old(q[k]) else old(p[k]))
      invariant forall k :: 0 <= k < i ==> q[k] == (if b == 1 then old(p[k]) else old(q[k]))
      invariant forall k :: i <= k < 16 ==> p[k] == old(p[k]) && q[k] == old(q[k])
    {
      p[i], q[i] := SelLimb(p[i], q[i], c);
    }
  }

  // ---- unpack25519 ----

  /** Two base-256 digits make one base-65536 digit. */
  lemma {:induction false} PairDigits(n: seq<int>, o: seq<int>)
    requires |n| == 2 * |o| && forall i :: 0 <= i < |o| ==> o[i] == n[2 * i] + 256 * n[2 * i + 1]
    ensures Value(n, 256) == Num(o)
  {
    if o != [] {
      var n', o' := n[2..], o[1..];
      forall i | 0 <= i < |o'| ensures o'[i] == n'[2 * i] + 256 * n'[2 * i + 1] {
        assert o'[i] == o[i + 1] == n[2 * (i + 1)] + 256 * n[2 * (i + 1) + 1];
      }
      PairDigits(n', o');
      assert n[1..][1..] == n[2..];
      assert o[0] == n[2 * 0] + 256 * n[2 * 0 + 1];
    }
  }

  lemma Top15()
    ensures Pow(65536, 15) * 32768 == TWO256 / 2
  {
    Radix16();
    assert Pow(65536, 16) == 65536 * Pow(65536, 15);
  }

  /** Decoding ignores the top bit of the last byte. */
  method Unpack25519(o: array<i64>, n: array<byte>)
    requires o.Length == 16 && n.Length == 32
    modifies o
    ensures n[..] == old(n[..])
    ensures Canonical(o[..], 65536)
    ensures Num(o[..]) == Value(n[..], 256) % (TWO256 / 2)
  {
    for i := 0 to 16
      invariant n[..] == old(n[..])
      invariant forall k :: 0 <= k < i ==> o[k] == (n[2 * k] as int) + 256 * (n[2 * k + 1] as int)
    {
      o[i] := (n[2 * i] as int) + 256 * (n[2 * i + 1] as int);
    }
    ghost var full: seq<int> := o[..];
    PairDigits(n[..], full);
    o[15] := o[15] % 32768;
    assert o[..] == full[15 := full[15] % 32768];
    MaskTop(full);
  }

  lemma MaskTop(s: seq<int>)
    requires |s| == 16 && Canonical(s, 65536)
    ensures Num(s[15 := s[15] % 32768]) == Num(s) % (TWO256 / 2)
  {
    var t := s[15 := s[15] % 32768];
    ValueUpdate(s, 65536, 15, s[15] % 32768);
    var q := s[15] / 32768;
    Top15();
    Assoc(q, 32768, Pow(65536, 15));
    assert Num(s) == Num(t) + q * (TWO256 / 2);
    HalfRange(t);
    ModAddMultiple(Num(t), q, TWO256 / 2);
    ModReduced(Num(t), TWO256 / 2);
  }

  lemma HalfRange(t: seq<int>)
    requires |t| == 16 && Canonical(t, 65536) && t[15] < 32768
    ensures 0 <= Num(t) < TWO256 / 2
  {
    Top15();
    ValuePrefix(t, 15, 65536);
    assert t[..16] == t;
    ValueBound(t[..15], 65536);
    Mono(Pow(65536, 15), 0, t[15]);
    Mono(Pow(65536, 15), t[15], 32767);
  }

  // ---- pack25519 ----

  /** The limbs of P, least significant first. */
  ghost function PLimb(i: nat): int { if i == 0 then 0xffed else if i < 15 then 0xffff else 0x7fff }
  ghost function PLimbs(): (q: seq<int>) ensures |q| == 16 { seq(16, i requires 0 <= i < 16 => PLimb(i)) }

  lemma PLimbsNum()
    ensures Num(PLimbs()) == P
  {
    var ones := PLimbs()[0 := 0xffff][15 := 0xffff];
    AllOnes(ones);
    ValueUpdate(PLimbs(), 65536, 0, 0xffff);
    ValueUpdate(PLimbs()[0 := 0xffff], 65536, 15, 0xffff);
    Radix16();
    Top15();
  }

  lemma {:induction false} AllOnes(s: seq<int>)
    requires forall i :: 0 <= i < |s| ==> s[i] == 0xffff
    ensures Num(s) == Pow(65536, |s|) - 1
  {
    if s != [] { AllOnes(s[1..]); }
  }

  /** Bit 16 of a limb difference is its borrow, and masking adds the borrow back. */
  ghost function Borrow(x: int): int { if x < 0 then 1 else 0 }

  lemma BorrowBit(x: int)
    requires -65536 <= x < 65536
    ensures (x / 65536) % 2 == Borrow(x) && x % 65536 == x + 65536 * Borrow(x)
  {}

  /** Limb i of t - P once the borrow from below has been taken. */
  ghost function Diff(t: seq<int>, i: nat): int
    requires i < |t|
  {
    t[i] - PLimb(i) - if i == 0 then 0 else Borrow(Diff(t, i - 1))
  }

  ghost function MaskedDiff(t: seq<int>, i: nat): int
    requires i < |t|
  {
    Diff(t, i) + 65536 * Borrow(Diff(t, i))
  }

  /** The limbs after the subtraction loop: all but the last are masked to 16 bits. */
  ghost function Masked(t: seq<int>, n: nat): (m: seq<int>)
    requires 1 <= n <= |t|
    ensures |m| == n
  {
    seq(n, i requires 0 <= i < n => if i < n - 1 then MaskedDiff(t, i) else Diff(t, i))
  }

  lemma {:induction false} DiffRange(t: seq<int>, i: nat)
    requires Canonical(t, 65536) && i < |t| <= 16
    ensures -65536 <= Diff(t, i) < 65536
  {
    if i > 0 { DiffRange(t, i - 1); }
  }

  lemma {:induction false} MaskedNum(t: seq<int>, n: nat)
    requires 1 <= n <= |t| == 16
    ensures Num(Masked(t, n)) == Num(t[..n]) - Num(PLimbs()[..n])
  {
    if n == 1 {
      assert t[..1] == [t[0]] && PLimbs()[..1] == [PLimb(0)] && Masked(t, 1) == [Diff(t, 0)];
      ValueSingle(t[0], 65536); ValueSingle(PLimb(0), 65536); ValueSingle(Diff(t, 0), 65536);
    } else {
      MaskedNum(t, n - 1);
      var before, d := Masked(t, n - 1), Diff(t, n - 2);
      ValueUpdate(before, 65536, n - 2, MaskedDiff(t, n - 2));
      assert Masked(t, n) == before[n - 2 := MaskedDiff(t, n - 2)] + [Diff(t, n - 1)];
      ValueSnoc(before[n - 2 := MaskedDiff(t, n - 2)], Diff(t, n - 1), 65536);
      ValuePrefix(t, n - 1, 65536);
      ValuePrefix(PLimbs(), n - 1, 65536);
      BorrowAlgebra(t[n - 1], PLimb(n - 1), Borrow(d), Pow(65536, n - 2));
    }
  }

  lemma BorrowAlgebra(t: int, q: int, c: int, p: int)
    ensures (t - q - c) * (65536 * p) + (65536 * c) * p == t * (65536 * p) - q * (65536 * p)
  {
    Assoc(c, 65536, p);
    Assoc(65536, c, p);
  }

  /** The last borrow says whether t is below P; without it the limbs are t - P. */
  lemma MaskedResult(t: seq<int>)
    requires |t| == 16 && Canonical(t, 65536)
    ensures Borrow(Diff(t, 15)) == if Num(t) < P then 1 else 0
    ensures Num(Masked(t, 16)) == Num(t) - P
    ensures Num(t) >= P ==> Canonical(Masked(t, 16), 65536)
  {
    var m := Masked(t, 16);
    MaskedNum(t, 16);
    assert t[..16] == t && PLimbs()[..16] == PLimbs();
    PLimbsNum();
    forall i | 0 <= i < 16 ensures -65536 <= Diff(t, i) < 65536 { DiffRange(t, i); }
    SignOfTop(m);
  }

  /** m := t - P with borrows; the result is the final borrow. */
  method SubtractP(m: array<i64>, t: array<i64>) returns (b: int)
    requires m.Length == 16 && t.Length == 16 && m != t && Canonical(t[..], 65536)
    modifies m
    ensures b == if Num(t[..]) < P then 1 else 0
    ensures b == 0 ==> Canonical(m[..], 65536) && Num(m[..]) == Num(t[..]) - P
  {
    ghost var s: seq<int> := t[..];
    m[0] := t[0] - 0xffed;
    var i := 1;
    while i < 15
      invariant 1 <= i <= 15 && t[..] == s
      invariant forall k :: 0 <= k < i - 1 ==> m[k] == MaskedDiff(s, k)
      invariant m[i - 1] == Diff(s, i - 1)
    {
      DiffRange(s, i - 1);
      BorrowBit(m[i - 1]);
      m[i] := t[i] - 0xffff - (m[i - 1] / 65536) % 2;
      m[i - 1] := m[i - 1] % 65536;
      i := i + 1;
    }
    DiffRange(s, 14);
    BorrowBit(m[14]);
    m[15] := t[15] - 0x7fff - (m[14] / 65536) % 2;
    DiffRange(s, 15);
    BorrowBit(m[15]);
    b := (m[15] / 65536) % 2;
    m[14] := m[14] % 65536;
    assert m[..] == Masked(s, 16);
    MaskedResult(s);
  }

  lemma SignOfSum(low: int, top: int, p: int)
    requires 0 <= low < p
    ensures low + top * p < 0 <==> top < 0
  {
    if top < 0 { Mono(p, top, -1); } else { Mono(p, 0, top); }
  }

  lemma SignOfTop(m: seq<int>)
    requires |m| == 16 && Canonical(m[..15], 65536)
    ensures Num(m) < 0 <==> m[15] < 0
  {
    ValuePrefix(m, 15, 65536);
    assert m[..16] == m;
    ValueBound(m[..15], 65536);
    SignOfSum(Value(m[..15], 65536), m[15], Pow(65536, 15));
  }

  /** Two conditional subtractions of P bring sixteen 16-bit digits into [0, P). */
  method Freeze(t: array<i64>, m: array<i64>)
    requires t.Length == 16 && m.Length == 16 && t != m && Canonical(t[..], 65536)
    modifies t, m
    ensures Canonical(t[..], 65536) && Num(t[..]) == Elem(old(t[..]))
  {
    ValueBound(t[..], 65536);
    Radix16();
    for j := 0 to 2
      invariant Canonical(t[..], 65536) && Elem(t[..]) == Elem(old(t[..]))
      invariant 0 <= Num(t[..]) < (if j == 0 then 2 * P + 38 else if j == 1 then P + 38 else P)
    {
      var b := SubtractP(m, t);
      ModAddMultiple(Num(t[..]), -1, P);
      ghost var ts, ms := t[..], m[..];
      Sel25519(t, m, 1 - b);
      ValueBound(t[..], 65536);
    }
    ModReduced(Num(t[..]), P);
  }

  /** The bytes written are the little-endian encoding of the representative in [0, P). */
  method Pack25519(o: array<byte>, n: array<i64>)
    requires o.Length == 32 && n.Length == 16
    requires Within(n[..], 0x4000_0000_0000_0000)
    modifies o
    ensures Value(o[..], 256) == Elem(old(n[..]))
  {
    var t, m := new i64[16], new i64[16];
    for i := 0 to 16
      invariant forall k :: 0 <= k < i ==> t[k] == old(n[k])
    {
      t[i] := n[i];
    }
    assert t[..] == old(n[..]);
    CarriedElem(t[..]); CarriedOnce(t[..]); Car25519(t);
    CarriedElem(t[..]); CarriedTwice(t[..]); Car25519(t);
    CarriedElem(t[..]); CarriedThrice(t[..]); Car25519(t);
    Freeze(t, m);
    WriteDigits(o, t);
  }

  method WriteDigits(o: array<byte>, t: array<i64>)
    requires o.Length == 32 && t.Length == 16 && Canonical(t[..], 65536)
    modifies o
    ensures Value(o[..], 256) == Num(old(t[..]))
  {
    ghost var s: seq<int> := t[..];
    for i := 0 to 16
      invariant t[..] == s
      invariant forall k :: 0 <= k < i ==> s[k] == (o[2 * k] as int) + 256 * (o[2 * k + 1] as int)
    {
      o[2 * i] := t[i] % 256;
      o[2 * i + 1] := t[i] / 256;
    }
    PairDigits(o[..], s);
  }

  /** Equal field elements pack to equal bytes, different ones to different bytes. */
  lemma PackingIsCanonical(x: seq<byte>, y: seq<byte>, a: seq<int>, b: seq<int>)
    requires |x| == 32 && |y| == 32
    requires Value(x, 256) == Elem(a) && Value(y, 256) == Elem(b)
    ensures x == y <==> Elem(a) == Elem(b)
  {
    if Elem(a) == Elem(b) { ValueInjective(x, y, 256); }
  }

}
