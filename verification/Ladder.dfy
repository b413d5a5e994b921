/** inv25519 and crypto_scalarmult of tweetnacl.c against section 5 of RFC 7748. */
module Ladder {
  import opened Digits
  import opened Field25519
  import opened X25519

  // ---- section 5 of RFC 7748, on residues modulo P ----

  datatype Points = Points(x2: nat, z2: nat, x3: nat, z3: nat)

  /** cswap on both coordinate pairs. */
  ghost function Exchange(s: Points, b: nat): Points
  {
    if b == 1 then Points(s.x3, s.z3, s.x2, s.z2) else s
  }

  /** The arithmetic of one loop iteration, a24 = 121665. */
  ghost function Step(x1: nat, s: Points): Points
  {
    var a, b := Add(s.x2, s.z2), Sub(s.x2, s.z2);
    var aa, bb := Mul(a, a), Mul(b, b);
    var e := Sub(aa, bb);
    var c, d := Add(s.x3, s.z3), Sub(s.x3, s.z3);
    var da, cb := Mul(d, a), Mul(c, b);
    Points(Mul(aa, bb), Mul(e, Add(aa, Mul(121665, e))),
           Mul(Add(da, cb), Add(da, cb)), Mul(x1, Mul(Sub(da, cb), Sub(da, cb))))
  }

  /** Bit t of k, by shifting right t times. */
  ghost function Bit(k: nat, t: nat): (b: nat)
    ensures b <= 1
  {
    if t == 0 then k % 2 else Bit(k / 2, t - 1)
  }

  /** The loop over bits t-1 .. 0 with its delayed swap, and the swap after it. */
  ghost function Loop(step: Points -> Points, bits: nat -> nat, t: nat, s: Points, swap: nat): Points
  {
    if t == 0 then Exchange(s, swap)
    else Loop(step, bits, t - 1, step(Exchange(s, (swap + bits(t - 1)) % 2)), bits(t - 1))
  }

  ghost function BitsOf(k: nat): nat -> nat { t => Bit(k, t) }

  // The loop's two parameters, tied to their definitions only where Step or Bit is mentioned.
  ghost predicate IsStep(step: Points -> Points, x1: nat)
  {
    forall s: Points {:trigger Step(x1, s)} :: step(s) == Step(x1, s)
  }

  ghost predicate IsBits(bits: nat -> nat, k: nat)
  {
    forall t: nat {:trigger Bit(k, t)} :: bits(t) == Bit(k, t)
  }

  ghost function Stepper(x1: nat): Points -> Points { s => Step(x1, s) }

  ghost function Power(x: nat, e: nat): nat { Pow(x, e) % P }

  ghost function RfcX25519(k: nat, u: nat): nat
  {
    var r := Loop(Stepper(u), BitsOf(k), 255, Points(1, 0, u, 1), 0);
    Mul(r.x2, Power(r.z2, P - 2))
  }

  /** Swapping back at the end of every iteration, as the code does, is the delayed swap. */
  lemma EagerSwap(step: Points -> Points, bits: nat -> nat, t: nat, s: Points, swap: nat)
    requires swap <= 1 && (t > 0 ==> bits(t - 1) <= 1)
    ensures Loop(step, bits, t, s, swap) == Loop(step, bits, t, Exchange(s, swap), 0)
  {
    if t > 0 {
      var bit := bits(t - 1);
      assert Exchange(s, (swap + bit) % 2) == Exchange(Exchange(s, swap), bit);
    }
  }

  lemma EagerStep(step: Points -> Points, bits: nat -> nat, t: nat, s: Points)
    requires t > 0 && bits(t - 1) <= 1 && (t > 1 ==> bits(t - 2) <= 1)
    ensures var bit := bits(t - 1);
      Loop(step, bits, t, s, 0) == Loop(step, bits, t - 1, Exchange(step(Exchange(s, bit)), bit), 0)
  {
    var bit := bits(t - 1);
    EagerSwap(step, bits, t - 1, step(Exchange(s, bit)), bit);
  }

  // ---- inv25519 ----

  lemma PowerSquare(x: nat, e: nat)
    ensures Mul(Power(x, e), Power(x, e)) == Power(x, e + e)
  {
    ModMul(Pow(x, e), Pow(x, e), P);
    PowAdd(x, e, e);
  }

  lemma PowerNext(x: nat, e: nat)
    ensures Mul(Power(x, e), x) == Power(x, e + 1)
  {
    var w := Pow(x, e);
    ModReduced(w % P, P);
    ModMulLeft(w % P, w, x, P);
    assert Pow(x, e + 1) == x * w;
  }

  /** How far the exponent built so far is below 2^(255-a). */
  function Deficit(a: nat): nat
  {
    if a >= 5 then 1 else if a == 4 then 2 else if a == 3 then 3 else if a == 2 then 6 else if a == 1 then 11 else 21
  }

  lemma TwoTo255()
    ensures Pow(2, 255) == P + 19
  {
    PowMul(2, 16, 16);
    assert Pow(2, 4) == 16;
    PowAdd(2, 4, 4);
    PowAdd(2, 8, 8);
    Radix16();
    assert Pow(2, 256) == 2 * Pow(2, 255);
  }

  method Inv25519(o: array<i64>, x: array<i64>)
    requires o.Length == 16 && Within(x[..], 0x400_0000)
    modifies o
    ensures Elem(o[..]) == Power(Elem(old(x[..])), P - 2)
    ensures Reduced(o[..])
  {
    ghost var v := Elem(x[..]);
    ghost var xs: seq<int> := x[..];
    var c := new i64[16];
    Set25519(c, x);
    ghost var e: nat := 1;
    assert Pow(v, 1) == v * Pow(v, 0);
    ModReduced(v, P);
    var a := 253;
    while a >= 0
      invariant -1 <= a <= 253 && x[..] == xs && fresh(c)
      invariant Within(c[..], 0x400_0000) && (a < 253 ==> Reduced(c[..]))
      invariant e == Pow(2, 255 - (a + 1)) - Deficit(a + 1)
      invariant Elem(c[..]) == Power(v, e)
    {
      PowerSquare(v, e);
      PowerNext(v, e + e);
      S(c, c);
      if a != 2 && a != 4 { M(c, c, x); }
      e := if a != 2 && a != 4 then 2 * e + 1 else 2 * e;
      a := a - 1;
    }
    TwoTo255();
    assert e == P - 2;
    Set25519(o, c);
  }

  // ---- crypto_scalarmult ----

  ghost predicate Distinct(a: array<i64>, b: array<i64>, c: array<i64>, d: array<i64>, e: array<i64>, f: array<i64>)
  {
    && a != b && a != c && a != d && a != e && a != f && b != c && b != d && b != e && b != f
    && c != d && c != e && c != f && d != e && d != f && e != f
    && a.Length == b.Length == c.Length == d.Length == e.Length == f.Length == 16
  }

  ghost predicate Apart(x: array<i64>, a: array<i64>, b: array<i64>, c: array<i64>, d: array<i64>, e: array<i64>,
                        f: array<i64>)
  {
    x != a && x != b && x != c && x != d && x != e && x != f
  }

  /** First half of an iteration: from the two points to DA, CB, AA and BB. */
  method UpperRung(a: array<i64>, b: array<i64>, c: array<i64>, d: array<i64>, e: array<i64>, f: array<i64>)
    requires Distinct(a, b, c, d, e, f)
    requires Reduced(a[..]) && Reduced(b[..]) && Reduced(c[..]) && Reduced(d[..])
    modifies a, b, c, d, e, f
    ensures Reduced(a[..]) && Reduced(c[..]) && Reduced(d[..]) && Reduced(f[..])
    ensures var x2, x3, z2, z3 := Elem(old(a[..])), Elem(old(b[..])), Elem(old(c[..])), Elem(old(d[..]));
      var A, B, C, D := Add(x2, z2), Sub(x2, z2), Add(x3, z3), Sub(x3, z3);
      Elem(d[..]) == Mul(A, A) && Elem(f[..]) == Mul(B, B) &&
      Elem(a[..]) == Mul(C, B) && Elem(c[..]) == Mul(D, A)
  {
    A(e, a, c);
    Z(a, a, c);
    A(c, b, d);
    Z(b, b, d);
    S(d, e);
    S(f, a);
    M(a, c, a);
    M(c, b, e);
  }

  /** Second half: from those to the next pair of points. */
  method LowerRung(a: array<i64>, b: array<i64>, c: array<i64>, d: array<i64>, e: array<i64>, f: array<i64>,
                   x: array<i64>, a24: array<i64>)
    requires Distinct(a, b, c, d, e, f) && Apart(x, a, b, c, d, e, f) && Apart(a24, a, b, c, d, e, f)
    requires Reduced(a[..]) && Reduced(c[..]) && Reduced(d[..]) && Reduced(f[..]) && Reduced(x[..]) && Reduced(a24[..])
    modifies a, b, c, d, e, f
    ensures Reduced(a[..]) && Reduced(b[..]) && Reduced(c[..]) && Reduced(d[..])
    ensures var cb, da, aa, bb := Elem(old(a[..])), Elem(old(c[..])), Elem(old(d[..])), Elem(old(f[..]));
      var sum, diff, E := Add(cb, da), Sub(cb, da), Sub(aa, bb);
      Elem(a[..]) == Mul(aa, bb) &&
      Elem(b[..]) == Mul(sum, sum) &&
      Elem(c[..]) == Mul(E, Add(Mul(E, Elem(old(a24[..]))), aa)) &&
      Elem(d[..]) == Mul(Mul(diff, diff), Elem(old(x[..])))
  {
    A(e, a, c);
    Z(a, a, c);
    S(b, a);
    Z(c, d, f);
    M(a, c, a24);
    A(a, a, d);
    M(c, c, a);
    M(a, d, f);
    M(d, b, x);
    S(b, e);
  }

  /** The code's order of operands and signs is immaterial. */
  lemma StepMatches(x1: nat, s: Points, r: Points)
    requires var A, B, C, D := Add(s.x2, s.z2), Sub(s.x2, s.z2), Add(s.x3, s.z3), Sub(s.x3, s.z3);
      var aa, bb, cb, da := Mul(A, A), Mul(B, B), Mul(C, B), Mul(D, A);
      var sum, diff, E := Add(cb, da), Sub(cb, da), Sub(aa, bb);
      r == Points(Mul(aa, bb), Mul(E, Add(Mul(E, 121665), aa)), Mul(sum, sum), Mul(Mul(diff, diff), x1))
    ensures r == Step(x1, s)
  {
    var A, B, C, D := Add(s.x2, s.z2), Sub(s.x2, s.z2), Add(s.x3, s.z3), Sub(s.x3, s.z3);
    var aa, bb, cb, da := Mul(A, A), Mul(B, B), Mul(C, B), Mul(D, A);
    var E, diff := Sub(aa, bb), Sub(cb, da);
    Commutes(cb, da);
    Commutes(E, 121665);
    Commutes(Mul(E, 121665), aa);
    Commutes(Mul(diff, diff), x1);
    SquareOfDifference(cb, da);
  }

  lemma Commutes(x: nat, y: nat)
    ensures Mul(x, y) == Mul(y, x) && Add(x, y) == Add(y, x)
  {}

  lemma SquareOfDifference(x: nat, y: nat)
    ensures Mul(Sub(x, y), Sub(x, y)) == Mul(Sub(y, x), Sub(y, x))
  {
    ModMul(x - y, x - y, P);
    ModMul(y - x, y - x, P);
    assert (x - y) * (x - y) == (y - x) * (y - x);
  }

  ghost function Abs(a: seq<int>, b: seq<int>, c: seq<int>, d: seq<int>): Points
  {
    Points(Elem(a), Elem(c), Elem(b), Elem(d))
  }

  /** One iteration of the scalar multiplication loop for scalar bit r. */
  method Rung(a: array<i64>, b: array<i64>, c: array<i64>, d: array<i64>, e: array<i64>, f: array<i64>, x: array<i64>,
              a24: array<i64>, r: int)
    requires Distinct(a, b, c, d, e, f) && Apart(x, a, b, c, d, e, f) && Apart(a24, a, b, c, d, e, f) &&
      (r == 0 || r == 1)
    requires Reduced(a[..]) && Reduced(b[..]) && Reduced(c[..]) && Reduced(d[..]) && Reduced(x[..])
    requires Reduced(a24[..]) && Elem(a24[..]) == 121665
    modifies a, b, c, d, e, f
    ensures Reduced(a[..]) && Reduced(b[..]) && Reduced(c[..]) && Reduced(d[..])
    ensures Abs(a[..], b[..], c[..], d[..]) ==
      Exchange(Step(Elem(old(x[..])), Exchange(old(Abs(a[..], b[..], c[..], d[..])), r)), r)
  {
    ghost var s := Exchange(Abs(a[..], b[..], c[..], d[..]), r);
    Sel25519(a, b, r);
    Sel25519(c, d, r);
    assert Abs(a[..], b[..], c[..], d[..]) == s;
    UpperRung(a, b, c, d, e, f);
    LowerRung(a, b, c, d, e, f, x, a24);
    StepMatches(Elem(x[..]), s, Abs(a[..], b[..], c[..], d[..]));
    Sel25519(a, b, r);
    Sel25519(c, d, r);
  }

  // ---- scalar bits ----

  lemma {:induction false} BitByDivision(k: nat, t: nat)
    ensures Pow(2, t) > 0 && Bit(k, t) == (k / Pow(2, t)) % 2
  {
    PowPositive(2, t);
    if t > 0 {
      BitByDivision(k / 2, t - 1);
      DivDiv(k, 2, Pow(2, t - 1));
    }
  }

  lemma ByteBit(x: nat, p: nat, j: nat)
    requires p > 0 && p * (2 * j) == 256
    ensures ((x % 256) / p) % 2 == (x / p) % 2
  {
    var h, l := x / 256, x % 256;
    var y := l / p;
    assert x == (h * (2 * j) + y) * p + l % p by {
      Assoc(h, 2 * j, p);
      Distribute(p, h * (2 * j), y);
    }
    DivModUnique(x, h * (2 * j) + y, l % p, p);
    Assoc(h, 2, j);
    assert h * (2 * j) == (h * j) * 2;
    ModAddMultiple(y, h * j, 2);
  }

  lemma SmallPowers(r: nat)
    requires r < 8
    ensures Pow(2, r) > 0 && Pow(2, r) * (2 * Pow(2, 7 - r)) == 256 == Pow(2, 8)
  {
    PowPositive(2, r);
    assert Pow(2, 4) == 16;
    PowAdd(2, 4, 4);
    PowAdd(2, r, 8 - r);
  }

  lemma BitOfQuotient(k: nat, a: nat, p: nat, j: nat, digit: int)
    requires a > 0 && p > 0 && p * (2 * j) == 256 && (k / a) % 256 == digit
    ensures a * p > 0 && (k / (a * p)) % 2 == (digit / p) % 2
  {
    DivDiv(k, a, p);
    ByteBit(k / a, p, j);
  }

  /** Bit t of the scalar is bit t%8 of byte t/8. */
  lemma ScalarBit(z: seq<byte>, t: nat)
    requires t < 8 * |z|
    ensures Pow(2, t % 8) > 0 && Value(z, 256) >= 0
    ensures Bit(Value(z, 256), t) == (z[t / 8] / Pow(2, t % 8)) % 2
  {
    var q, r := t / 8, t % 8;
    var k := Value(z, 256);
    ValueBound(z, 256);
    SmallPowers(r);
    PowPositive(256, q);
    PowMul(2, 8, q);
    PowAdd(2, 8 * q, r);
    ValueDigit(z, 256, q);
    BitByDivision(k, t);
    BitOfQuotient(k, Pow(256, q), Pow(2, r), Pow(2, 7 - r), z[q]);
  }

  method GetBit(z: array<byte>, t: nat) returns (r: int)
    requires z.Length == 32 && t < 256
    ensures Value(z[..], 256) >= 0 && r == Bit(Value(z[..], 256), t)
    ensures r == 0 || r == 1
  {
    ScalarBit(z[..], t);
    r := (z[t / 8] / Pow(2, t % 8)) % 2;
  }

  // ---- the function ----

  /** decodeScalar25519: the two masked bytes and the little-endian integer. */
  function ClampFirst(b: byte): byte { ((b as bv8) & 248) as int }
  function ClampLast(b: byte): byte { (((b as bv8) & 127) | 64) as int }
  ghost function Clamped(n: seq<byte>): (z: seq<byte>)
    requires |n| == 32
    ensures |z| == 32
  {
    n[0 := ClampFirst(n[0])][31 := ClampLast(n[31])]
  }

  method Clamp(n: array<byte>) returns (z: array<byte>)
    requires n.Length == 32
    ensures fresh(z) && z.Length == 32 && z[..] == Clamped(n[..])
  {
    z := new byte[32](i requires 0 <= i < 32 reads n => n[i]);
    z[31] := ClampLast(n[31]);
    z[0] := ClampFirst(z[0]);
  }

  method Constant121665() returns (a24: array<i64>)
    ensures fresh(a24) && Reduced(a24[..]) && Elem(a24[..]) == 121665
  {
    a24 := new i64[16](i => if i == 0 then 0xDB41 else if i == 1 then 1 else 0);
    A24(a24[..]);
  }

  ghost predicate AllReduced(a: seq<int>, b: seq<int>, c: seq<int>, d: seq<int>)
  {
    Reduced(a) && Reduced(b) && Reduced(c) && Reduced(d)
  }

  /** The iteration for scalar bit i consumes one step of the specified loop. */
  method ClimbBit(a: array<i64>, b: array<i64>, c: array<i64>, d: array<i64>, e: array<i64>, f: array<i64>,
                  x: array<i64>, a24: array<i64>, z: array<byte>, i: nat, ghost step: Points -> Points,
                  ghost bits: nat -> nat, ghost k: nat)
    requires Distinct(a, b, c, d, e, f) && Apart(x, a, b, c, d, e, f) && Apart(a24, a, b, c, d, e, f)
    requires AllReduced(a[..], b[..], c[..], d[..]) && Reduced(x[..]) && Reduced(a24[..]) && Elem(a24[..]) == 121665
    requires z.Length == 32 && i < 256 && k == Value(z[..], 256)
    requires IsStep(step, Elem(x[..])) && IsBits(bits, k)
    modifies a, b, c, d, e, f
    ensures AllReduced(a[..], b[..], c[..], d[..])
    ensures Loop(step, bits, i, Abs(a[..], b[..], c[..], d[..]), 0) ==
            old(Loop(step, bits, i + 1, Abs(a[..], b[..], c[..], d[..]), 0))
  {
    var r := GetBit(z, i);
    assert i > 0 ==> Bit(k, i - 1) <= 1;
    EagerStep(step, bits, i + 1, Abs(a[..], b[..], c[..], d[..]));
    Rung(a, b, c, d, e, f, x, a24, r);
  }

  /** The loop over all 255 scalar bits, from the point at infinity and the input point. */
  method Climb(a: array<i64>, b: array<i64>, c: array<i64>, d: array<i64>, e: array<i64>, f: array<i64>, x: array<i64>,
               a24: array<i64>, z: array<byte>, ghost step: Points -> Points, ghost bits: nat -> nat, ghost k: nat)
    requires Distinct(a, b, c, d, e, f) && Apart(x, a, b, c, d, e, f) && Apart(a24, a, b, c, d, e, f)
    requires AllReduced(a[..], b[..], c[..], d[..]) && Reduced(x[..]) && Reduced(a24[..]) && Elem(a24[..]) == 121665
    requires z.Length == 32 && k == Value(z[..], 256)
    requires IsStep(step, Elem(x[..])) && IsBits(bits, k)
    modifies a, b, c, d, e, f
    ensures AllReduced(a[..], b[..], c[..], d[..])
    ensures Abs(a[..], b[..], c[..], d[..]) == Loop(step, bits, 255, old(Abs(a[..], b[..], c[..], d[..])), 0)
  {
    ghost var final := Loop(step, bits, 255, Abs(a[..], b[..], c[..], d[..]), 0);
    var i := 254;
    while i >= 0
      invariant -1 <= i <= 254
      invariant AllReduced(a[..], b[..], c[..], d[..])
      invariant Loop(step, bits, i + 1, Abs(a[..], b[..], c[..], d[..]), 0) == final
    {
      ClimbBit(a, b, c, d, e, f, x, a24, z, i, step, bits, k);
      i := i - 1;
    }
  }

  /** x2 / z2 as canonical bytes. */
  method Project(q: array<byte>, a: array<i64>, c: array<i64>)
    requires q.Length == 32 && a != c && Reduced(a[..]) && Reduced(c[..])
    modifies q, a, c
    ensures Value(q[..], 256) == Mul(old(Elem(a[..])), Power(old(Elem(c[..])), P - 2))
  {
    Inv25519(c, c);
    M(a, a, c);
    Pack25519(q, a);
  }

  method Multiply(q: array<byte>, z: array<byte>, x: array<i64>, ghost k: nat)
    requires q.Length == 32 && z.Length == 32 && Reduced(x[..]) && k == Value(z[..], 256)
    modifies q
    ensures Value(q[..], 256) == RfcX25519(k, Elem(old(x[..])))
  {
    var a24 := Constant121665();
    var a := Unit(1);
    var c := Unit(0);
    var d := Unit(1);
    var b, e, f := new i64[16], new i64[16], new i64[16];
    Set25519(b, x);
    Climb(a, b, c, d, e, f, x, a24, z, Stepper(Elem(x[..])), BitsOf(k), k);
    Project(q, a, c);
  }

  method ScalarMult(q: array<byte>, n: array<byte>, p: array<byte>)
    requires q.Length == 32 && n.Length == 32 && p.Length == 32
    modifies q
    ensures Value(Clamped(old(n[..])), 256) >= 0
    ensures Value(q[..], 256) == RfcX25519(Value(Clamped(old(n[..])), 256), Value(old(p[..]), 256) % (TWO256 / 2) % P)
  {
    var z := Clamp(n);
    var x := new i64[16];
    Unpack25519(x, p);
    ValueBound(z[..], 256);
    Multiply(q, z, x, Value(z[..], 256));
  }

  method Unit(v: nat) returns (s: array<i64>)
    requires v < 2
    ensures fresh(s) && Reduced(s[..]) && Elem(s[..]) == v
  {
    s := new i64[16](i => if i == 0 then v else 0);
    UnitElem(s[..], v);
  }

  lemma UnitElem(s: seq<int>, v: nat)
    requires |s| == 16 && s[0] == v < 2 && forall i :: 1 <= i < 16 ==> s[i] == 0
    ensures Elem(s) == v
  {
    ValueZeros(s[1..], 65536);
    ModReduced(v, P);
  }

  lemma A24(s: seq<int>)
    requires |s| == 16 && s[0] == 0xDB41 && s[1] == 1 && forall i :: 2 <= i < 16 ==> s[i] == 0
    ensures Elem(s) == 121665
  {
    var zeros := seq(16, i => 0);
    ValueZeros(zeros, 65536);
    ValueUpdate(zeros, 65536, 0, 0xDB41);
    ValueUpdate(zeros[0 := 0xDB41], 65536, 1, 1);
    assert s == zeros[0 := 0xDB41][1 := 1];
    assert Pow(65536, 0) == 1 && Pow(65536, 1) == 65536;
    ModReduced(121665, P);
  }
}
