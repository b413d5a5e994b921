/** GF(2^255-19) as tweetnacl.c computes it: sixteen signed limbs of radix 2^16 in
    64-bit words. Every limb and every intermediate result has type i64, so the
    verifier proves that no 64-bit operation overflows. */
module Field25519 {
  import opened Digits

  type i64 = x: int | -0x8000_0000_0000_0000 <= x < 0x8000_0000_0000_0000

  const P: nat := 0x7fff_ffff_ffff_ffff_ffff_ffff_ffff_ffff_ffff_ffff_ffff_ffff_ffff_ffff_ffff_ffed
  const TWO256: nat := 0x1_0000_0000_0000_0000_0000_0000_0000_0000_0000_0000_0000_0000_0000_0000_0000_0000

  lemma Radix16()
    ensures Pow(65536, 16) == TWO256 && TWO256 == 38 + 2 * P
  {
    assert Pow(65536, 2) == 0x1_0000_0000;
    PowAdd(65536, 2, 2);
    PowAdd(65536, 4, 4);
    PowAdd(65536, 8, 8);
  }

  /** The integer a limb vector denotes, and its residue class. */
  ghost function Num(s: seq<int>): int { Value(s, 65536) }
  ghost function Elem(s: seq<int>): nat { Num(s) % P }

  /** Field operations on residues. */
  ghost function Add(x: nat, y: nat): nat { (x + y) % P }
  ghost function Sub(x: nat, y: nat): nat { (x - y) % P }
  ghost function Mul(x: nat, y: nat): nat { (x * y) % P }

  ghost predicate Within(s: seq<int>, bound: int)
  {
    |s| == 16 && forall i :: 0 <= i < 16 ==> -bound <= s[i] <= bound
  }

  /** The bound every product, square and unpacked point satisfies. */
  ghost predicate Reduced(s: seq<int>)
  {
    |s| == 16 && -38 <= s[0] <= 65573 && forall i :: 1 <= i < 16 ==> 0 <= s[i] < 65536
  }

  // ---- car25519 ----

  /** One carry pass: limbs become 16-bit digits and the last carry wraps to limb 0 times 38. */
  ghost function Carried(s: seq<int>): (r: seq<int>)
    requires |s| == 16
    ensures |r| == 16
  {
    seq(16, i requires 0 <= i < 16 => Low(s, 65536, i) + if i == 0 then 38 * Carry(s, 65536, 15) else 0)
  }

  lemma Wrap(c: int, p: int)
    ensures c * (38 + 2 * p) == 38 * c + (2 * c) * p
  {}

  lemma CarriedElem(s: seq<int>)
    requires |s| == 16
    ensures Elem(Carried(s)) == Elem(s)
  {
    var lows := Lows(s, 65536, 16);
    var c := Carry(s, 65536, 15);
    CarryPrefix(s, 65536, 16);
    assert s[..16] == s;
    ValueUpdate(lows, 65536, 0, lows[0] + 38 * c);
    assert lows[0 := lows[0] + 38 * c] == Carried(s);
    Radix16();
    assert Num(s) == Num(Carried(s)) + (2 * c) * P by { Wrap(c, P); }
    ModAddMultiple(Num(Carried(s)), 2 * c, P);
  }

  lemma {:induction false} CarryBound(s: seq<int>, i: nat)
    requires Within(s, 0x4000_0000_0000_0000) && i < 16
    ensures -0x8000_0000_0000 <= Carry(s, 65536, i) <= 0x8000_0000_0000
    ensures -0x5000_0000_0000_0000 <= Into(s, 65536, i) <= 0x5000_0000_0000_0000
  {
    if i > 0 { CarryBound(s, i - 1); }
  }

  ghost predicate Once(s: seq<int>)
  {
    |s| == 16 && -0x20_0000_0000_0000 <= s[0] <= 0x20_0000_0000_0000 && forall i :: 1 <= i < 16 ==> 0 <= s[i] < 65536
  }

  lemma CarriedOnce(s: seq<int>)
    requires Within(s, 0x4000_0000_0000_0000)
    ensures Once(Carried(s))
  {
    CarryBound(s, 15);
  }

  lemma {:induction false} CarryTwice(s: seq<int>, i: nat)
    requires Once(s) && 3 <= i < 16
    ensures -1 <= Carry(s, 65536, i) <= 1
  {
    if i == 3 {
      assert -0x20_0000_0000 <= Carry(s, 65536, 0) <= 0x20_0000_0000;
      assert -0x20_0000 <= Carry(s, 65536, 1) <= 0x20_0000;
      assert -32 <= Carry(s, 65536, 2) <= 32;
    } else {
      CarryTwice(s, i - 1);
    }
  }

  lemma CarriedTwice(s: seq<int>)
    requires Once(s)
    ensures Reduced(Carried(s))
  {
    CarryTwice(s, 15);
  }

  lemma {:induction false} CarryThrice(s: seq<int>, i: nat)
    requires Reduced(s) && i < 16
    ensures Carry(s, 65536, i) == 0 || (-1 <= Carry(s, 65536, i) <= 1 && Carry(s, 65536, i) == Carry(s, 65536, 0))
  {
    if i > 0 { CarryThrice(s, i - 1); }
  }

  /** A third pass leaves sixteen proper 16-bit digits. */
  lemma CarriedThrice(s: seq<int>)
    requires Reduced(s)
    ensures Canonical(Carried(s), 65536)
  {
    CarryThrice(s, 15);
    assert Low(s, 65536, 0) == s[0] - 65536 * Carry(s, 65536, 0);
  }

  method Car25519(o: array<i64>)
    requires o.Length == 16
    requires Within(o[..], 0x4000_0000_0000_0000)
    modifies o
    ensures o[..] == Carried(old(o[..]))
  {
    ghost var s: seq<int> := o[..];
    var i := 0;
    while i < 16
      invariant 0 <= i <= 16
      invariant forall k :: 0 <= k < i ==>
        o[k] == Low(s, 65536, k) + if k == 0 && i == 16 then 38 * Carry(s, 65536, 15) else 0
      invariant i < 16 ==> o[i] == Into(s, 65536, i)
      invariant forall k :: i < k < 16 ==> o[k] == s[k]
    {
      ghost var x := o[i];
      CarryBound(s, i);
      o[i] := o[i] + 65536;
      var c: i64 := o[i] / 65536;                    // arithmetic shift right by 16
      assert c - 1 == x / 65536 == Carry(s, 65536, i);
      if i < 15 {
        o[i + 1] := o[i + 1] + (c - 1);
      } else {
        o[0] := o[0] + (c - 1 + 37 * (c - 1));
      }
      o[i] := o[i] - c * 65536;
      assert o[i] == x - 65536 * (x / 65536) == Low(s, 65536, i);
      i := i + 1;
    }
  }

  method Set25519(r: array<i64>, a: array<i64>)
    requires r.Length == 16 && a.Length == 16
    modifies r
    ensures r[..] == old(a[..])
  {
    for i := 0 to 16
      invariant forall k :: 0 <= k < i ==> r[k] == old(a[k])
      invariant forall k :: i <= k < 16 ==> a[k] == old(a[k])
    {
      r[i] := a[i];
    }
  }

  // ---- addition and subtraction ----

  lemma SumElem(a: seq<int>, b: seq<int>, o: seq<int>)
    requires |a| == |b| == |o| && forall i :: 0 <= i < |o| ==> o[i] == a[i] + b[i]
    ensures Elem(o) == Add(Elem(a), Elem(b))
  {
    ValueAddScaled(a, b, o, 1, 65536);
    ModAdd(Num(a), Num(b), P);
  }

  lemma DifferenceElem(a: seq<int>, b: seq<int>, o: seq<int>)
    requires |a| == |b| == |o| && forall i :: 0 <= i < |o| ==> o[i] == a[i] - b[i]
    ensures Elem(o) == Sub(Elem(a), Elem(b))
  {
    ValueAddScaled(o, b, a, 1, 65536);
    ModSub(Num(a), Num(b), P);
  }

  method A(o: array<i64>, a: array<i64>, b: array<i64>)
    requires o.Length == 16 && a.Length == 16 && b.Length == 16
    requires forall i :: 0 <= i < 16 ==> -0x8000_0000_0000_0000 <= a[i] + b[i] < 0x8000_0000_0000_0000
    modifies o
    ensures forall i :: 0 <= i < 16 ==> o[i] == old(a[i]) + old(b[i])
    ensures Reduced(old(a[..])) && Reduced(old(b[..])) ==> Within(o[..], 0x400_0000)
    ensures Elem(o[..]) == Add(Elem(old(a[..])), Elem(old(b[..])))
  {
    for i := 0 to 16
      invariant forall k :: 0 <= k < i ==> o[k] == old(a[k]) + old(b[k])
      invariant forall k :: i <= k < 16 ==> o[k] == old(o[k])
      invariant a != o ==> a[..] == old(a[..])
      invariant b != o ==> b[..] == old(b[..])
    {
      o[i] := a[i] + b[i];
    }
    SumElem(old(a[..]), old(b[..]), o[..]);
  }

  method Z(o: array<i64>, a: array<i64>, b: array<i64>)
    requires o.Length == 16 && a.Length == 16 && b.Length == 16
    requires forall i :: 0 <= i < 16 ==> -0x8000_0000_0000_0000 <= a[i] - b[i] < 0x8000_0000_0000_0000
    modifies o
    ensures forall i :: 0 <= i < 16 ==> o[i] == old(a[i]) - old(b[i])
    ensures Reduced(old(a[..])) && Reduced(old(b[..])) ==> Within(o[..], 0x400_0000)
    ensures Elem(o[..]) == Sub(Elem(old(a[..])), Elem(old(b[..])))
  {
    for i := 0 to 16
      invariant forall k :: 0 <= k < i ==> o[k] == old(a[k]) - old(b[k])
      invariant forall k :: i <= k < 16 ==> o[k] == old(o[k])
      invariant a != o ==> a[..] == old(a[..])
      invariant b != o ==> b[..] == old(b[..])
    {
      o[i] := a[i] - b[i];
    }
    DifferenceElem(old(a[..]), old(b[..]), o[..]);
  }

  // ---- multiplication ----

  lemma ProductBound(x: int, y: int, b: int)
    requires -b <= x <= b && -b <= y <= b
    ensures -(b * b) <= x * y <= b * b
  {
    Mono(b - x, 0, b - y); Mono(b + x, 0, b + y);
    Mono(b - x, 0, b + y); Mono(b + x, 0, b - y);
    assert (b - x) * (b + y) == b * b + b * y - x * b - x * y;
    assert (b + x) * (b - y) == b * b - b * y + x * b - x * y;
    assert (b - x) * (b - y) == b * b - b * y - x * b + x * y;
    assert (b + x) * (b + y) == b * b + b * y + x * b + x * y;
  }

  /** Accumulating a[i]*b[j] into column i+j extends the partial product by one digit of b. */
  lemma ProductStep(t: seq<int>, a: seq<int>, b: seq<int>, i: nat, j: nat)
    requires |a| == 16 && |b| == 16 && |t| == 31 && i < 16 && j < 16
    requires Num(t) == Num(a[..i]) * Num(b) + a[i] * Pow(65536, i) * Num(b[..j])
    ensures Num(t[i + j := t[i + j] + a[i] * b[j]]) == Num(a[..i]) * Num(b) + a[i] * Pow(65536, i) * Num(b[..j + 1])
  {
    ValueUpdate(t, 65536, i + j, t[i + j] + a[i] * b[j]);
    ValuePrefix(b, j, 65536);
    PowAdd(65536, i, j);
    ProductAlgebra(a[i], Pow(65536, i), Num(b[..j]), b[j], Pow(65536, j));
  }

  lemma ProductAlgebra(a: int, p: int, v: int, b: int, q: int)
    ensures a * p * (v + b * q) == a * p * v + (a * b) * (p * q)
  {
    Distribute(a * p, v, b * q);
    assert (a * p) * (b * q) == (a * b) * (p * q) by {
      Assoc(a * p, b, q); Assoc(a * b, p, q);
      assert (a * p) * b == (a * b) * p;
    }
  }

  lemma ProductRow(a: seq<int>, b: seq<int>, i: nat)
    requires |a| == 16 && |b| == 16 && i < 16
    ensures Num(a[..i]) * Num(b) + a[i] * Pow(65536, i) * Num(b) == Num(a[..i + 1]) * Num(b)
  {
    ValuePrefix(a, i, 65536);
    Distribute(Num(b), Num(a[..i]), a[i] * Pow(65536, i));
  }

  /** Folding the high fifteen columns back with weight 38 keeps the residue. */
  lemma FoldElem(t: seq<int>, u: seq<int>)
    requires |t| == 31 && |u| == 16 && u[15] == t[15]
    requires forall i :: 0 <= i < 15 ==> u[i] == t[i] + 38 * t[i + 16]
    ensures Elem(u) == Num(t) % P
  {
    var lo, hi := t[..16], t[16..] + [0];
    assert t == t[..16] + t[16..];
    ValueConcat(t[..16], t[16..], 65536);
    ValueSnoc(t[16..], 0, 65536);
    ValueAddScaled(lo, hi, u, 38, 65536);
    var v := Num(t[16..]);
    Radix16();
    assert Num(t) == Num(u) + (2 * v) * P by { Wrap(v, P); }
    ModAddMultiple(Num(u), 2 * v, P);
  }

  lemma FoldBound(t: seq<int>, u: seq<int>)
    requires |t| == 31 && |u| == 16 && u[15] == t[15]
    requires forall i :: 0 <= i < 15 ==> u[i] == t[i] + 38 * t[i + 16]
    requires forall k :: 0 <= k < 31 ==> -0x100_0000_0000_0000 <= t[k] <= 0x100_0000_0000_0000
    ensures Within(u, 0x4000_0000_0000_0000)
  {
    forall i | 0 <= i < 16 ensures -0x4000_0000_0000_0000 <= u[i] <= 0x4000_0000_0000_0000 {
      if i < 15 { assert u[i] == t[i] + 38 * t[i + 16]; }
    }
  }

  method MulColumns(a: array<i64>, b: array<i64>) returns (t: array<i64>)
    requires Within(a[..], 0x400_0000) && Within(b[..], 0x400_0000)
    ensures fresh(t) && t.Length == 31
    ensures Num(t[..]) == Num(a[..]) * Num(b[..])
    ensures forall k :: 0 <= k < 31 ==> -0x100_0000_0000_0000 <= t[k] <= 0x100_0000_0000_0000
  {
    t := new i64[31](i => 0);
    ghost var sa: seq<int>, sb: seq<int> := a[..], b[..];
    ValueZeros(t[..], 65536);
    assert sa[..0] == [] && Num(sa[..0]) * Num(sb) == 0;
    for i := 0 to 16
      invariant Num(t[..]) == Num(sa[..i]) * Num(sb)
      invariant forall k :: 0 <= k < 31 ==> -(i * 0x10_0000_0000_0000) <= t[k] <= i * 0x10_0000_0000_0000
    {
      assert sb[..0] == [] && sa[i] * Pow(65536, i) * Num(sb[..0]) == 0;
      for j := 0 to 16
        invariant Num(t[..]) == Num(sa[..i]) * Num(sb) + sa[i] * Pow(65536, i) * Num(sb[..j])
        invariant forall k :: 0 <= k < 31 ==>
          var n := i + if i <= k < i + j then 1 else 0;
          -(n * 0x10_0000_0000_0000) <= t[k] <= n * 0x10_0000_0000_0000
      {
        ProductBound(a[i], b[j], 0x400_0000);
        var product: i64 := a[i] * b[j];
        ProductStep(t[..], sa, sb, i, j);
        ghost var before := t[..];
        t[i + j] := t[i + j] + product;
        assert t[..] == before[i + j := before[i + j] + a[i] * b[j]];
      }
      assert sb[..16] == sb;
      ProductRow(sa, sb, i);
    }
    assert sa[..16] == sa;
  }

  method FoldColumns(o: array<i64>, t: array<i64>)
    requires o.Length == 16 && t.Length == 31 && o != t
    requires forall k :: 0 <= k < 31 ==> -0x100_0000_0000_0000 <= t[k] <= 0x100_0000_0000_0000
    modifies o, t
    ensures Elem(o[..]) == Num(old(t[..])) % P
    ensures Within(o[..], 0x4000_0000_0000_0000)
  {
    ghost var cols: seq<int> := t[..];
    for i := 0 to 15
      invariant forall k :: 0 <= k < i ==> t[k] == cols[k] + 38 * cols[k + 16]
      invariant forall k :: i <= k < 31 ==> t[k] == cols[k]
    {
      t[i] := t[i] + 38 * t[i + 16];
    }
    ghost var sums := t[..];
    for i := 0 to 16
      invariant t[..] == sums && forall k :: 0 <= k < i ==> o[k] == sums[k]
    {
      o[i] := t[i];
    }
    FoldElem(cols, o[..]);
    FoldBound(cols, o[..]);
  }

  method M(o: array<i64>, a: array<i64>, b: array<i64>)
    requires o.Length == 16
    requires Within(a[..], 0x400_0000) && Within(b[..], 0x400_0000)
    modifies o
    ensures Elem(o[..]) == Mul(Elem(old(a[..])), Elem(old(b[..])))
    ensures Reduced(o[..])
  {
    var t := MulColumns(a, b);
    ModMul(Num(a[..]), Num(b[..]), P);
    FoldColumns(o, t);
    CarriedElem(o[..]);
    CarriedOnce(o[..]);
    Car25519(o);
    CarriedElem(o[..]);
    CarriedTwice(o[..]);
    Car25519(o);
  }

  method S(o: array<i64>, a: array<i64>)
    requires o.Length == 16
    requires Within(a[..], 0x400_0000)
    modifies o
    ensures Elem(o[..]) == Mul(Elem(old(a[..])), Elem(old(a[..])))
    ensures Reduced(o[..])
  {
    M(o, a, a);
  }
}
