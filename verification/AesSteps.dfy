/** The round steps of aes.c on a block of sixteen bytes, and their inverses. */
module AesSteps {

  type Block = s: seq<bv8> | |s| == 16 witness seq(16, i => 0)

  // ---- the substitution tables ----

  /** Row high of the substitution table, sixteen bytes to a word. */
  function SboxRow(high: bv8): bv128
  {
    if high == 0 then 0x637c777bf26b6fc53001672bfed7ab76
    else if high == 1 then 0xca82c97dfa5947f0add4a2af9ca472c0
    else if high == 2 then 0xb7fd9326363ff7cc34a5e5f171d83115
    else if high == 3 then 0x04c723c31896059a071280e2eb27b275
    else if high == 4 then 0x09832c1a1b6e5aa0523bd6b329e32f84
    else if high == 5 then 0x53d100ed20fcb15b6acbbe394a4c58cf
    else if high == 6 then 0xd0efaafb434d338545f9027f503c9fa8
    else if high == 7 then 0x51a3408f929d38f5bcb6da2110fff3d2
    else if high == 8 then 0xcd0c13ec5f974417c4a77e3d645d1973
    else if high == 9 then 0x60814fdc222a908846eeb814de5e0bdb
    else if high == 10 then 0xe0323a0a4906245cc2d3ac629195e479
    else if high == 11 then 0xe7c8376d8dd54ea96c56f4ea657aae08
    else if high == 12 then 0xba78252e1ca6b4c6e8dd741f4bbd8b8a
    else if high == 13 then 0x703eb5664803f60e613557b986c11d9e
    else if high == 14 then 0xe1f8981169d98e949b1e87e9ce5528df
    else 0x8ca1890dbfe6426841992d0fb054bb16
  }

  /** Row high of the inverse table. */
  function InverseRow(high: bv8): bv128
  {
    if high == 0 then 0x52096ad53036a538bf40a39e81f3d7fb
    else if high == 1 then 0x7ce339829b2fff87348e4344c4dee9cb
    else if high == 2 then 0x547b9432a6c2233dee4c950b42fac34e
    else if high == 3 then 0x082ea16628d924b2765ba2496d8bd125
    else if high == 4 then 0x72f8f66486689816d4a45ccc5d65b692
    else if high == 5 then 0x6c704850fdedb9da5e154657a78d9d84
    else if high == 6 then 0x90d8ab008cbcd30af7e45805b8b34506
    else if high == 7 then 0xd02c1e8fca3f0f02c1afbd0301138a6b
    else if high == 8 then 0x3a9111414f67dcea97f2cfcef0b4e673
    else if high == 9 then 0x96ac7422e7ad3585e2f937e81c75df6e
    else if high == 10 then 0x47f11a711d29c5896fb7620eaa18be1b
    else if high == 11 then 0xfc563e4bc6d279209adbc0fe78cd5af4
    else if high == 12 then 0x1fdda8338807c731b11210592780ec5f
    else if high == 13 then 0x60517fa919b54a0d2de57a9f93c99cef
    else if high == 14 then 0xa0e03b4dae2af5b0c8ebbb3c83539961
    else 0x172b047eba77d626e169146355210c7d
  }

  function Sbox(x: bv8): bv8 { ((SboxRow(x >> 4) >> (8 * (15 - (x & 15)))) & 0xff) as bv8 }

  function InverseSbox(x: bv8): bv8 { ((InverseRow(x >> 4) >> (8 * (15 - (x & 15)))) & 0xff) as bv8 }

  lemma SboxQuarter0(x: bv8)
    requires x >> 6 == 0
    ensures InverseSbox(Sbox(x)) == x
  {}

  lemma SboxQuarter1(x: bv8)
    requires x >> 6 == 1
    ensures InverseSbox(Sbox(x)) == x
  {}

  lemma SboxQuarter2(x: bv8)
    requires x >> 6 == 2
    ensures InverseSbox(Sbox(x)) == x
  {}

  lemma SboxQuarter3(x: bv8)
    requires x >> 6 == 3
    ensures InverseSbox(Sbox(x)) == x
  {}

  /** The second table undoes the first on every byte. */
  lemma SboxInverse(x: bv8)
    ensures InverseSbox(Sbox(x)) == x
  {
    if x >> 6 == 0 {
      SboxQuarter0(x);
    } else if x >> 6 == 1 {
      SboxQuarter1(x);
    } else if x >> 6 == 2 {
      SboxQuarter2(x);
    } else {
      SboxQuarter3(x);
    }
  }

  /** f of every element. */
  function Each<T>(f: T -> T, s: seq<T>): (r: seq<T>)
    ensures |r| == |s|
  {
    seq(|s|, i requires 0 <= i < |s| => f(s[i]))
  }

  function Sub(s: Block): Block { Each(Sbox, s) }

  function InverseSub(s: Block): Block { Each(InverseSbox, s) }

  lemma SubInverse(s: Block)
    ensures InverseSub(Sub(s)) == s
  {
    forall i | 0 <= i < 16 ensures InverseSub(Sub(s))[i] == s[i] { SboxInverse(s[i]); }
  }

  // ---- rows ----

  /** Byte 4 * c + r of the block is row r of column c; row r moves r columns to the left. */
  function Shift(s: Block): Block { Shifted(s, 4) }

  function InverseShift(s: Block): Block { Shifted(s, 12) }

  /** Row r moves r * n / 4 columns to the left, around the row. */
  function Shifted<T>(s: seq<T>, n: nat): (t: seq<T>)
    requires |s| == 16
    ensures |t| == 16
  {
    seq(16, i requires 0 <= i < 16 => s[(i + n * (i % 4)) % 16])
  }

  /** Shift is the rotation of each row that section 5.1.2 of FIPS 197 describes. */
  lemma ShiftRotatesRows(s: Block, r: nat, c: nat)
    requires r < 4 && c < 4
    ensures Shift(s)[4 * c + r] == s[4 * ((c + r) % 4) + r]
  {
    assert (4 * c + r) % 4 == r;
  }

  lemma ShiftInverse(s: Block)
    ensures InverseShift(Shift(s)) == s
  {
    forall i: nat | i < 16 ensures Shifted(Shifted(s, 4), 12)[i] == s[i] { ThereAndBack(i); }
  }

  lemma ThereAndBack(i: nat)
    requires i < 16
    ensures var j := (i + 12 * (i % 4)) % 16; (j + 4 * (j % 4)) % 16 == i
  {
    var r := i % 4;
    if r == 0 {} else if r == 1 {} else if r == 2 {} else {}
  }

  // ---- sums of bytes ----

  // Sums are written with a named function, so that their algebra is done by rewriting and not bit by bit.
  function Xor(u: bv8, v: bv8): bv8 { u ^ v }

  function Row(a: bv8, b: bv8, c: bv8, d: bv8): bv8 { Xor(Xor(a, b), Xor(c, d)) }

  lemma Commutes(a: bv8, b: bv8)
    ensures Xor(a, b) == Xor(b, a)
  {}

  lemma Associates(a: bv8, b: bv8, c: bv8)
    ensures Xor(Xor(a, b), c) == Xor(a, Xor(b, c))
  {}

  lemma CancelsOut(a: bv8, b: bv8)
    ensures Xor(a, Xor(a, b)) == b
  {}

  lemma Interchange(a: bv8, b: bv8, c: bv8, d: bv8)
    ensures Row(a, b, c, d) == Row(a, c, b, d)
  {
    Associates(a, b, Xor(c, d));
    Associates(b, c, d);
    Commutes(b, c);
    Associates(c, b, d);
    Associates(a, c, Xor(b, d));
  }

  lemma RowRotates(a: bv8, b: bv8, c: bv8, d: bv8)
    ensures Row(a, b, c, d) == Row(d, a, b, c)
  {
    Commutes(c, d);
    Interchange(a, b, d, c);
    Commutes(a, d);
  }

  lemma AddRows(a: bv8, b: bv8, c: bv8, d: bv8, e: bv8, f: bv8, g: bv8, h: bv8)
    ensures Xor(Row(a, b, c, d), Row(e, f, g, h)) == Row(Xor(a, e), Xor(b, f), Xor(c, g), Xor(d, h))
  {
    Interchange(Xor(a, b), Xor(c, d), Xor(e, f), Xor(g, h));
    Interchange(a, b, e, f);
    Interchange(c, d, g, h);
  }

  // ---- columns ----

  /** xtime: multiplication by x modulo x^8 + x^4 + x^3 + x + 1. The shifted-out bit comes back as 0x1b. */
  function Xtime(x: bv8): bv8
  {
    var t := x >> 7;
    (x << 1) ^ t ^ (t << 1) ^ (t << 3) ^ (t << 4)
  }

  /** The code multiplies 0x1b by the shifted-out bit. */
  lemma XtimeAsProduct(x: bv8)
    ensures Xtime(x) == (x << 1) ^ (((x >> 7) & 1) * 0x1b)
  {}

  lemma XtimeLinear(a: bv8, b: bv8)
    ensures Xtime(Xor(a, b)) == Xor(Xtime(a), Xtime(b))
  {}

  /** v, if the factor has the bit; the code multiplies v by the bit. */
  function Term(v: bv8, bit: bv8): bv8 { if bit != 0 then v else 0 }

  lemma TermAsProduct(v: bv8, bit: bv8)
    requires bit == 0 || bit == 1
    ensures Term(v, bit) == bit * v
  {}

  lemma TermLinear(a: bv8, b: bv8, bit: bv8)
    ensures Term(Xor(a, b), bit) == Xor(Term(a, bit), Term(b, bit))
  {}

  /** Multiply, for factors of five bits: the multiples of x that the factor's bits select. */
  function Multiply(x: bv8, y: bv8): bv8
  {
    var x1 := Xtime(x);
    var x2 := Xtime(x1);
    var x3 := Xtime(x2);
    Xor(Xor(Xor(Xor(Term(x, y & 1), Term(x1, (y >> 1) & 1)), Term(x2, (y >> 2) & 1)), Term(x3, (y >> 3) & 1)),
        Term(Xtime(x3), (y >> 4) & 1))
  }

  lemma SumPairs(a: bv8, b: bv8, c: bv8, d: bv8, e: bv8, p: bv8, q: bv8, r: bv8, s: bv8, t: bv8)
    ensures Xor(Xor(Xor(Xor(Xor(a, p), Xor(b, q)), Xor(c, r)), Xor(d, s)), Xor(e, t)) ==
      Xor(Xor(Xor(Xor(Xor(a, b), c), d), e), Xor(Xor(Xor(Xor(p, q), r), s), t))
  {
    Interchange(a, p, b, q);
    Interchange(Xor(a, b), Xor(p, q), c, r);
    Interchange(Xor(Xor(a, b), c), Xor(Xor(p, q), r), d, s);
    Interchange(Xor(Xor(Xor(a, b), c), d), Xor(Xor(Xor(p, q), r), s), e, t);
  }

  lemma MultiplyLinear(a: bv8, b: bv8, y: bv8)
    ensures Multiply(Xor(a, b), y) == Xor(Multiply(a, y), Multiply(b, y))
  {
    var a1, b1 := Xtime(a), Xtime(b);
    var a2, b2 := Xtime(a1), Xtime(b1);
    var a3, b3 := Xtime(a2), Xtime(b2);
    var a4, b4 := Xtime(a3), Xtime(b3);
    XtimeLinear(a, b);
    XtimeLinear(a1, b1);
    XtimeLinear(a2, b2);
    XtimeLinear(a3, b3);
    var y0, y1, y2, y3, y4 := y & 1, (y >> 1) & 1, (y >> 2) & 1, (y >> 3) & 1, (y >> 4) & 1;
    TermLinear(a, b, y0);
    TermLinear(a1, b1, y1);
    TermLinear(a2, b2, y2);
    TermLinear(a3, b3, y3);
    TermLinear(a4, b4, y4);
    SumPairs(Term(a, y0), Term(a1, y1), Term(a2, y2), Term(a3, y3), Term(a4, y4),
             Term(b, y0), Term(b1, y1), Term(b2, y2), Term(b3, y3), Term(b4, y4));
  }

  lemma MultiplyRow(a: bv8, b: bv8, c: bv8, d: bv8, y: bv8)
    ensures Multiply(Row(a, b, c, d), y) == Row(Multiply(a, y), Multiply(b, y), Multiply(c, y), Multiply(d, y))
  {
    MultiplyLinear(Xor(a, b), Xor(c, d), y);
    MultiplyLinear(a, b, y);
    MultiplyLinear(c, d, y);
  }

  /** Entry a of the mixed column a, b, c, d. */
  function MixByte(a: bv8, b: bv8, c: bv8, d: bv8): bv8 { Xor(a, Xor(Xtime(Xor(a, b)), Xor(Xor(Xor(a, b), c), d))) }

  function UnmixByte(a: bv8, b: bv8, c: bv8, d: bv8): bv8
  {
    Xor(Xor(Xor(Multiply(a, 0x0e), Multiply(b, 0x0b)), Multiply(c, 0x0d)), Multiply(d, 0x09))
  }

  function Times3(v: bv8): bv8 { Xor(Xtime(v), v) }

  /** A mixed byte is 2a + 3b + c + d, the row of the matrix of section 5.1.3 of FIPS 197. */
  lemma MixForm(a: bv8, b: bv8, c: bv8, d: bv8)
    ensures MixByte(a, b, c, d) == Row(Xtime(a), Times3(b), c, d)
  {
    var x, y, rest := Xtime(a), Xtime(b), Xor(c, d);
    XtimeLinear(a, b);
    Associates(Xor(a, b), c, d);
    Associates(a, b, rest);
    Commutes(Xor(x, y), Xor(a, Xor(b, rest)));
    Associates(a, Xor(b, rest), Xor(x, y));
    CancelsOut(a, Xor(Xor(b, rest), Xor(x, y)));
    Commutes(Xor(b, rest), Xor(x, y));
    Associates(Xor(x, y), b, rest);
    Associates(x, y, b);
  }

  // What the inverse makes of each byte of the column, byte by byte.

  lemma ColumnA(a: bv8)
    ensures Row(Multiply(Xtime(a), 0x0e), Multiply(a, 0x0b), Multiply(a, 0x0d), Multiply(Times3(a), 0x09)) == a
  {}

  lemma ColumnB(b: bv8)
    ensures Row(Multiply(Times3(b), 0x0e), Multiply(Xtime(b), 0x0b), Multiply(b, 0x0d), Multiply(b, 0x09)) == 0
  {}

  lemma ColumnC(c: bv8)
    ensures Row(Multiply(c, 0x0e), Multiply(Times3(c), 0x0b), Multiply(Xtime(c), 0x0d), Multiply(c, 0x09)) == 0
  {}

  lemma ColumnD(d: bv8)
    ensures Row(Multiply(d, 0x0e), Multiply(d, 0x0b), Multiply(Times3(d), 0x0d), Multiply(Xtime(d), 0x09)) == 0
  {}

  lemma ZeroRow(a: bv8)
    ensures Row(a, 0, 0, 0) == a
  {}

  /** The sum of four rows, column by column. */
  lemma SumOfRows(a: bv8, b: bv8, c: bv8, d: bv8, e: bv8, f: bv8, g: bv8, h: bv8, i: bv8, j: bv8, k: bv8, l: bv8,
                  m: bv8, n: bv8, o: bv8, p: bv8)
    ensures Row(Row(a, b, c, d), Row(e, f, g, h), Row(i, j, k, l), Row(m, n, o, p)) ==
      Row(Row(a, e, i, m), Row(b, f, j, n), Row(c, g, k, o), Row(d, h, l, p))
  {
    AddRows(a, b, c, d, e, f, g, h);
    AddRows(i, j, k, l, m, n, o, p);
    AddRows(Xor(a, e), Xor(b, f), Xor(c, g), Xor(d, h), Xor(i, m), Xor(j, n), Xor(k, o), Xor(l, p));
  }

  lemma UnmixIsRow(k: bv8, l: bv8, m: bv8, n: bv8)
    ensures UnmixByte(k, l, m, n) == Row(Multiply(k, 0x0e), Multiply(l, 0x0b), Multiply(m, 0x0d), Multiply(n, 0x09))
  {
    Associates(Xor(Multiply(k, 0x0e), Multiply(l, 0x0b)), Multiply(m, 0x0d), Multiply(n, 0x09));
  }

  /** The column matrices are inverse to each other. */
  lemma MixInverse(a: bv8, b: bv8, c: bv8, d: bv8)
    ensures UnmixByte(MixByte(a, b, c, d), MixByte(b, c, d, a), MixByte(c, d, a, b), MixByte(d, a, b, c)) == a
  {
    var a2, a3, b2, b3, c2, c3, d2, d3 := Xtime(a), Times3(a), Xtime(b), Times3(b), Xtime(c), Times3(c), Xtime(d),
      Times3(d);
    UnmixIsRow(MixByte(a, b, c, d), MixByte(b, c, d, a), MixByte(c, d, a, b), MixByte(d, a, b, c));
    MixForm(a, b, c, d);
    MixForm(b, c, d, a);
    RowRotates(b2, c3, d, a);
    MixForm(c, d, a, b);
    RowRotates(c2, d3, a, b);
    RowRotates(b, c2, d3, a);
    MixForm(d, a, b, c);
    RowRotates(c, d2, a3, b);
    RowRotates(b, c, d2, a3);
    RowRotates(d2, a3, b, c);
    MultiplyRow(a2, b3, c, d, 0x0e);
    MultiplyRow(a, b2, c3, d, 0x0b);
    MultiplyRow(a, b, c2, d3, 0x0d);
    MultiplyRow(a3, b, c, d2, 0x09);
    SumOfRows(Multiply(a2, 0x0e), Multiply(b3, 0x0e), Multiply(c, 0x0e), Multiply(d, 0x0e),
              Multiply(a, 0x0b), Multiply(b2, 0x0b), Multiply(c3, 0x0b), Multiply(d, 0x0b),
              Multiply(a, 0x0d), Multiply(b, 0x0d), Multiply(c2, 0x0d), Multiply(d3, 0x0d),
              Multiply(a3, 0x09), Multiply(b, 0x09), Multiply(c, 0x09), Multiply(d2, 0x09));
    ColumnA(a);
    ColumnB(b);
    ColumnC(c);
    ColumnD(d);
    ZeroRow(a);
  }
}
