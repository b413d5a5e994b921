/** Positional notation in any base, and congruence arithmetic: the mathematics that
    the limb arithmetic of tweetnacl.c and the byte-level codecs are measured against. */
module Digits {

  type byte = x: int | 0 <= x < 256
  type u32 = x: int | 0 <= x < 0x1_0000_0000

  const WORD := 0x1_0000_0000
  const SIGN := 0x8000_0000

  /** A 32-bit value cast to int. */
  function Signed(v: u32): int { if v < SIGN then v else v - WORD }

  // Small multiplication facts, stated on plain integers so that each proof below
  // can name the one it uses.

  lemma Distribute(a: int, x: int, y: int)
    ensures a * (x + y) == a * x + a * y
  {}

  lemma Assoc(a: int, x: int, y: int)
    ensures a * (x * y) == (a * x) * y
  {}

  lemma Rotate(a: int, x: int, y: int)
    ensures a * (x * y) == x * (a * y)
  {}

  lemma Mono(a: int, x: int, y: int)
    requires a >= 0 && x <= y
    ensures a * x <= a * y
  {}

  function Pow(b: nat, e: nat): nat
  {
    if e == 0 then 1 else b * Pow(b, e - 1)
  }

  lemma {:induction false} PowPositive(b: nat, e: nat)
    requires b > 0
    ensures Pow(b, e) > 0
  {
    if e > 0 { PowPositive(b, e - 1); }
  }

  lemma {:induction false} PowAdd(b: nat, x: nat, y: nat)
    ensures Pow(b, x + y) == Pow(b, x) * Pow(b, y)
  {
    if x > 0 {
      PowAdd(b, x - 1, y);
      Assoc(b, Pow(b, x - 1), Pow(b, y));
    }
  }

  lemma {:induction false} PowMul(b: nat, x: nat, y: nat)
    ensures Pow(Pow(b, x), y) == Pow(b, x * y)
  {
    if y == 0 {
      assert x * y == 0;
    } else {
      PowMul(b, x, y - 1);
      assert x * y == x + x * (y - 1) && x * (y - 1) >= 0;
      PowAdd(b, x, x * (y - 1));
    }
  }

  /** The number a little-endian digit sequence stands for. Digits may be any integers. */
  function Value(s: seq<int>, b: nat): int
  {
    if s == [] then 0 else s[0] + b * Value(s[1..], b)
  }

  lemma {:induction false} ValueUpdate(s: seq<int>, b: nat, i: nat, x: int)
    requires i < |s|
    ensures Value(s[i := x], b) == Value(s, b) + (x - s[i]) * Pow(b, i)
  {
    if i == 0 {
      assert s[0 := x][1..] == s[1..];
    } else {
      assert s[i := x][1..] == s[1..][i - 1 := x];
      ValueUpdate(s[1..], b, i - 1, x);
      var d := x - s[i];
      Distribute(b, Value(s[1..], b), d * Pow(b, i - 1));
      Rotate(b, d, Pow(b, i - 1));
    }
  }

  lemma {:induction false} ValueConcat(s: seq<int>, t: seq<int>, b: nat)
    ensures Value(s + t, b) == Value(s, b) + Pow(b, |s|) * Value(t, b)
  {
    if s == [] {
      assert s + t == t;
    } else {
      assert (s + t)[1..] == s[1..] + t;
      ValueConcat(s[1..], t, b);
      var p, v := Pow(b, |s| - 1), Value(t, b);
      Distribute(b, Value(s[1..], b), p * v);
      Assoc(b, p, v);
    }
  }

  lemma ValueSingle(x: int, b: nat)
    ensures Value([x], b) == x
  {
    assert [x][1..] == [];
  }

  lemma ValueSnoc(s: seq<int>, x: int, b: nat)
    ensures Value(s + [x], b) == Value(s, b) + x * Pow(b, |s|)
  {
    ValueConcat(s, [x], b);
    ValueSingle(x, b);
  }

  /** One more digit of a prefix. */
  lemma ValuePrefix(s: seq<int>, i: nat, b: nat)
    requires i < |s|
    ensures Value(s[..i + 1], b) == Value(s[..i], b) + s[i] * Pow(b, i)
  {
    assert s[..i + 1] == s[..i] + [s[i]];
    ValueSnoc(s[..i], s[i], b);
  }

  lemma {:induction false} ValueZeros(s: seq<int>, b: nat)
    requires forall i :: 0 <= i < |s| ==> s[i] == 0
    ensures Value(s, b) == 0
  {
    if s != [] { ValueZeros(s[1..], b); }
  }

  ghost predicate Canonical(s: seq<int>, b: nat)
  {
    forall i :: 0 <= i < |s| ==> 0 <= s[i] < b
  }

  lemma {:induction false} ValueBound(s: seq<int>, b: nat)
    requires Canonical(s, b)
    ensures 0 <= Value(s, b) < Pow(b, |s|)
  {
    if s != [] {
      ValueBound(s[1..], b);
      var v, p := Value(s[1..], b), Pow(b, |s| - 1);
      Mono(b, 0, v);
      Mono(b, v + 1, p);
      Distribute(b, v, 1);
    }
  }

  /** A canonical encoding of a given length is unique. */
  lemma {:induction false} ValueInjective(s: seq<int>, t: seq<int>, b: nat)
    requires |s| == |t| && Canonical(s, b) && Canonical(t, b)
    requires Value(s, b) == Value(t, b)
    ensures s == t
  {
    if s != [] {
      var v, w := Value(s[1..], b), Value(t[1..], b);
      DivModUnique(s[0] + b * v, v, s[0], b);
      DivModUnique(t[0] + b * w, w, t[0], b);
      ValueInjective(s[1..], t[1..], b);
      assert s == [s[0]] + s[1..] && t == [t[0]] + t[1..];
    }
  }

  /** Digit i of a canonical number is what division extracts. */
  lemma ValueDigit(s: seq<int>, b: nat, i: nat)
    requires Canonical(s, b) && i < |s| && b > 0 && Pow(b, i) > 0
    ensures (Value(s, b) / Pow(b, i)) % b == s[i]
  {
    var t := s[i..];
    assert s == s[..i] + t && t[1..] == s[i + 1..];
    ValueConcat(s[..i], t, b);
    ValueBound(s[..i], b);
    ExtractDigit(Value(s, b), Value(s[..i], b), Pow(b, i), Value(t, b), t[0], Value(t[1..], b), b);
  }

  lemma ExtractDigit(v: int, lo: int, p: int, q: int, d: int, hi: int, b: int)
    requires p > 0 && b > 0 && v == lo + p * q && 0 <= lo < p && q == d + b * hi && 0 <= d < b
    ensures (v / p) % b == d
  {
    DivModUnique(v, q, lo, p);
    DivModUnique(q, hi, d, b);
  }

  lemma {:induction false} ValueAddScaled(a: seq<int>, c: seq<int>, o: seq<int>, k: int, b: nat)
    requires |a| == |c| == |o| && forall i :: 0 <= i < |o| ==> o[i] == a[i] + k * c[i]
    ensures Value(o, b) == Value(a, b) + k * Value(c, b)
  {
    if o != [] {
      ValueAddScaled(a[1..], c[1..], o[1..], k, b);
      var x, y := Value(a[1..], b), Value(c[1..], b);
      Distribute(b, x, k * y);
      Rotate(b, k, y);
      Distribute(k, c[0], b * y);
    } else {
      assert k * Value(c, b) == 0;
    }
  }

  // ---- carry propagation ----

  /** Digit i once the carry from below has arrived; its value modulo the base; its own carry. */
  ghost function Into(s: seq<int>, b: nat, i: nat): int
    requires i < |s| && b > 0
  {
    s[i] + if i == 0 then 0 else Into(s, b, i - 1) / b
  }

  ghost function Carry(s: seq<int>, b: nat, i: nat): int
    requires i < |s| && b > 0
  {
    Into(s, b, i) / b
  }

  ghost function Low(s: seq<int>, b: nat, i: nat): int
    requires i < |s| && b > 0
  {
    Into(s, b, i) % b
  }

  ghost function Lows(s: seq<int>, b: nat, n: nat): (r: seq<int>)
    requires n <= |s| && b > 0
    ensures |r| == n
  {
    seq(n, i requires 0 <= i < n => Low(s, b, i))
  }

  /** The low digits and the last carry together still denote the same number. */
  lemma {:induction false} CarryPrefix(s: seq<int>, b: nat, n: nat)
    requires 1 <= n <= |s| && b > 0
    ensures Value(s[..n], b) == Value(Lows(s, b, n), b) + Carry(s, b, n - 1) * Pow(b, n)
  {
    var lows := Lows(s, b, n);
    ValuePrefix(s, n - 1, b);
    ValuePrefix(lows, n - 1, b);
    assert lows[..n] == lows && s[..n - 1 + 1] == s[..n];
    if n == 1 {
      assert s[..0] == [] && lows[..0] == [];
      CarryAlgebra(s[0], 0, Carry(s, b, 0), Low(s, b, 0), b, 1);
    } else {
      CarryPrefix(s, b, n - 1);
      assert lows[..n - 1] == Lows(s, b, n - 1);
      CarryAlgebra(s[n - 1], Carry(s, b, n - 2), Carry(s, b, n - 1), Low(s, b, n - 1), b, Pow(b, n - 1));
    }
  }

  lemma CarryAlgebra(x: int, cin: int, c: int, l: int, b: int, p: int)
    requires b > 0 && c == (x + cin) / b && l == (x + cin) % b
    ensures x * p + cin * p == l * p + c * (b * p)
  {
    assert x + cin == b * c + l;
    Distribute(p, x, cin);
    Distribute(p, b * c, l);
    Rotate(p, b, c);
    Rotate(c, b, p);
  }

  // ---- congruences ----

  lemma DivModUnique(x: int, q: int, r: int, m: int)
    requires m > 0 && 0 <= r < m && x == q * m + r
    ensures x / m == q && x % m == r
  {
    var q', r' := x / m, x % m;
    Distribute(m, q - q', q');
    if q > q' {
      Mono(m, 1, q - q');
    } else if q < q' {
      Mono(m, q - q', -1);
    }
  }

  lemma DivDiv(k: nat, x: nat, y: nat)
    requires x > 0 && y > 0
    ensures x * y > 0 && k / (x * y) == (k / x) / y
  {
    var q, r := k / x, k % x;
    var q', r' := q / y, q % y;
    Mono(x, 1, y);
    Mono(x, r', y - 1);
    Mono(x, 0, r');
    Distribute(x, y, -1);
    Distribute(x, q' * y, r');
    Assoc(q', x, y);
    assert k == q' * (x * y) + (x * r' + r) by {
      assert x * (q' * y) == q' * (x * y);
    }
    DivModUnique(k, q', x * r' + r, x * y);
  }

  lemma ModAddMultiple(x: int, k: int, m: int)
    requires m > 0
    ensures (x + k * m) % m == x % m
  {
    var q, r := x / m, x % m;
    assert x == q * m + r;
    assert x + k * m == (q + k) * m + r;
    DivModUnique(x + k * m, q + k, r, m);
  }

  lemma ModReduced(x: int, m: int)
    requires 0 <= x < m
    ensures x % m == x
  {
    DivModUnique(x, 0, x, m);
  }

  lemma ModAdd(x: int, y: int, m: int)
    requires m > 0
    ensures (x % m + y % m) % m == (x + y) % m
  {
    var a, b := x / m, y / m;
    assert x == a * m + x % m && y == b * m + y % m;
    assert x + y == (x % m + y % m) + (a + b) * m;
    ModAddMultiple(x % m + y % m, a + b, m);
  }

  lemma ModSub(x: int, y: int, m: int)
    requires m > 0
    ensures (x % m - y % m) % m == (x - y) % m
  {
    var a, b := x / m, y / m;
    assert x == a * m + x % m && y == b * m + y % m;
    assert x - y == (x % m - y % m) + (a - b) * m;
    ModAddMultiple(x % m - y % m, a - b, m);
  }

  lemma ModMul(x: int, y: int, m: int)
    requires m > 0
    ensures ((x % m) * (y % m)) % m == (x * y) % m
  {
    assert m * (x / m) + x % m == x && m * (y / m) + y % m == y;
    ProductMod(x / m, x % m, y / m, y % m, m);
  }

  lemma ProductMod(a: int, r: int, b: int, s: int, m: int)
    requires m > 0
    ensures ((m * a + r) * (m * b + s)) % m == (r * s) % m
  {
    Expand(a, r, b, s, m);
    ModAddMultiple(r * s, a * b * m + a * s + r * b, m);
  }

  lemma Expand(a: int, r: int, b: int, s: int, m: int)
    ensures (m * a + r) * (m * b + s) == r * s + (a * b * m + a * s + r * b) * m
  {}

  /** x and y in the same residue class stay so under multiplication by a common factor. */
  lemma ModMulLeft(x: int, y: int, z: int, m: int)
    requires m > 0 && x % m == y % m
    ensures (x * z) % m == (y * z) % m
  {
    ModMul(x, z, m);
    ModMul(y, z, m);
  }

  lemma {:induction false} ModPow(x: nat, e: nat, m: nat)
    requires m > 0
    ensures Pow(x % m, e) % m == Pow(x, e) % m
  {
    if e > 0 {
      ModPow(x, e - 1, m);
      ModMul(x, Pow(x, e - 1), m);
      ModMul(x % m, Pow(x % m, e - 1), m);
      ModReduced(x % m, m);
    }
  }
}
