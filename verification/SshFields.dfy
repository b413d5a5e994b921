/** The writer and reader of ssh_packet_core.c: the data types of section 5 of RFC 4251. */
module SshFields {
  import opened Digits

  type Bytes = seq<byte>

  // ---- numbers ----

  /** The value of bytes, the highest first. */
  function Big(b: Bytes): nat
  {
    if b == [] then 0 else 256 * Big(b[..|b| - 1]) + b[|b| - 1]
  }

  /** The lowest n bytes of a number, the highest first. */
  function Low(v: int, n: nat): (b: Bytes)
    ensures |b| == n
    decreases n
  {
    if n == 0 then [] else Low(v / 256, n - 1) + [v % 256]
  }

  /** ssh_write_u32_be, for a value cut to 32 bits. */
  function U32(v: int): (b: Bytes)
    ensures |b| == 4
  {
    Low(v, 4)
  }

  /** ssh_read_u32_be */
  function ReadU32(b: Bytes): (v: nat)
    requires |b| >= 4
    ensures v < WORD
  {
    BigBound(b[..4]);
    assert Pow(256, 4) == WORD by { assert Pow(256, 2) == 0x1_0000; }
    Big(b[..4])
  }

  lemma {:induction false} BigBound(b: Bytes)
    ensures Big(b) < Pow(256, |b|)
  {
    if b != [] {
      BigBound(b[..|b| - 1]);
      Mono(256, Big(b[..|b| - 1]), Pow(256, |b| - 1) - 1);
    }
  }

  lemma {:induction false} LowValue(v: nat, n: nat)
    requires v < Pow(256, n)
    ensures Big(Low(v, n)) == v
  {
    if n > 0 {
      LowValue(v / 256, n - 1);
      var b := Low(v, n);
      assert b[..n - 1] == Low(v / 256, n - 1);
    }
  }

  lemma U32RoundTrip(v: nat, rest: Bytes)
    requires v < WORD
    ensures ReadU32(U32(v) + rest) == v
  {
    assert Pow(256, 4) == WORD by { assert Pow(256, 2) == 0x1_0000; }
    LowValue(v, 4);
    assert (U32(v) + rest)[..4] == U32(v);
  }

  /** The four bytes as the shifts of the source give them. */
  lemma U32Shifts(v: nat)
    ensures U32(v) == [v / 0x100_0000 % 256, v / 0x1_0000 % 256, v / 0x100 % 256, v % 256]
  {
    var a := v / 256;
    var b := a / 256;
    var c := b / 256;
    assert b == v / 0x1_0000 && c == v / 0x100_0000;
    assert Low(c, 1) == [c % 256];
    assert Low(b, 2) == [c % 256, b % 256];
    assert Low(a, 3) == [c % 256, b % 256, a % 256];
  }

  /** The shifts of ssh_read_u32_be. */
  lemma FourBytes(a: byte, b: byte, c: byte, d: byte, rest: Bytes)
    ensures ReadU32([a, b, c, d] + rest) == 0x100_0000 * a + 0x1_0000 * b + 0x100 * c + d
  {
    assert ([a, b, c, d] + rest)[..4] == [a, b, c, d];
    assert [a, b, c, d][..3] == [a, b, c] && [a, b, c][..2] == [a, b] && [a, b][..1] == [a] && [a][..0] == [];
    assert Big([a]) == a;
    assert Big([a, b]) == 256 * a + b;
    assert Big([a, b, c]) == 0x1_0000 * a + 256 * b + c;
  }

  // ---- fields ----

  /** What can be put in a packet: the put functions of the writer. */
  datatype Field = Byte(b: byte) | Flag(on: bool) | Number(n: u32) | Text(s: Bytes) | Mpint(digits: Bytes)

  /** The digits of a number without leading zeros. */
  function Trimmed(digits: Bytes): (t: Bytes)
    ensures t != [] ==> t[0] != 0
  {
    if digits != [] && digits[0] == 0 then Trimmed(digits[1..]) else digits
  }

  /** The body of an mpint: nothing for zero, and a zero byte in front of a high bit. */
  function MpintBody(digits: Bytes): Bytes
  {
    var t := Trimmed(digits);
    if t != [] && t[0] >= 0x80 then [0] + t else t
  }

  function Encoded(f: Field): Bytes
  {
    match f
    case Byte(b) => [b]
    case Flag(on) => [if on then 1 else 0]
    case Number(n) => U32(n)
    case Text(s) => U32(|s|) + s
    case Mpint(digits) => U32(|MpintBody(digits)|) + MpintBody(digits)
  }

  // ---- mpints are canonical and keep their value ----

  lemma {:induction false} BigFront(x: byte, b: Bytes)
    ensures Big([x] + b) == x * Pow(256, |b|) + Big(b)
  {
    var s := [x] + b;
    if b == [] {
      assert s[..0] == [];
    } else {
      var last := b[|b| - 1];
      BigFront(x, b[..|b| - 1]);
      assert s[..|s| - 1] == [x] + b[..|b| - 1];
      Distribute(256, x * Pow(256, |b| - 1), Big(b[..|b| - 1]));
      Rotate(256, x, Pow(256, |b| - 1));
    }
  }

  lemma {:induction false} TrimmedValue(digits: Bytes)
    ensures Big(Trimmed(digits)) == Big(digits) && |Trimmed(digits)| <= |digits|
  {
    if digits != [] && digits[0] == 0 {
      TrimmedValue(digits[1..]);
      BigFront(0, digits[1..]);
      assert [0] + digits[1..] == digits;
    }
  }

  /** As section 5 of RFC 4251 has it for numbers that are not negative: no zero byte that is not needed for the
      sign. */
  ghost predicate Canonical(body: Bytes)
  {
    body == [] || (body[0] < 0x80 && (body[0] == 0 ==> |body| > 1 && body[1] >= 0x80))
  }

  lemma MpintKeepsValue(digits: Bytes)
    ensures Canonical(MpintBody(digits)) && Big(MpintBody(digits)) == Big(digits) && |MpintBody(digits)| <= |digits| + 1
  {
    TrimmedValue(digits);
    BigFront(0, Trimmed(digits));
  }

  // ---- and unique ----

  lemma {:induction false} BigInjective(a: Bytes, b: Bytes)
    requires |a| == |b| && Big(a) == Big(b)
    ensures a == b
  {
    if a != [] {
      var a', b' := a[..|a| - 1], b[..|b| - 1];
      assert a == a' + [a[|a| - 1]] && b == b' + [b[|b| - 1]];
      BigInjective(a', b');
    }
  }

  /** A canonical body lies below the values that need a byte more, and not below those that need a byte less. */
  lemma CanonicalBelow(b: Bytes)
    requires Canonical(b) && b != []
    ensures Big(b) < 128 * Pow(256, |b| - 1)
  {
    var rest := b[1..];
    assert b == [b[0]] + rest;
    BigFront(b[0], rest);
    BigBound(rest);
    Mono(Pow(256, |rest|), b[0], 127);
  }

  lemma CanonicalAbove(b: Bytes)
    requires Canonical(b) && |b| > 1
    ensures Big(b) >= 128 * Pow(256, |b| - 2)
  {
    var rest := b[1..];
    assert b == [b[0]] + rest;
    BigFront(b[0], rest);
    if b[0] == 0 {
      var end := rest[1..];
      assert rest == [rest[0]] + end;
      BigFront(rest[0], end);
      Mono(Pow(256, |end|), 128, rest[0]);
    } else {
      Mono(Pow(256, |rest|), 1, b[0]);
    }
  }

  lemma {:induction false} PowGrows(x: nat, y: nat)
    requires x <= y
    ensures 0 < Pow(256, x) <= Pow(256, y)
  {
    PowPositive(256, x);
    if x < y { PowGrows(x, y - 1); }
  }

  lemma ShorterIsLess(a: Bytes, b: Bytes)
    requires Canonical(a) && Canonical(b) && |a| < |b|
    ensures Big(a) < Big(b)
  {
    if |b| == 1 {
      assert b[..0] == [];
    } else {
      CanonicalAbove(b);
      if a == [] {
        PowGrows(0, |b| - 2);
      } else {
        CanonicalBelow(a);
        PowGrows(|a| - 1, |b| - 2);
      }
    }
  }

  /** A number has one canonical body, so equal numbers are written alike. */
  lemma CanonicalUnique(a: Bytes, b: Bytes)
    requires Canonical(a) && Canonical(b) && Big(a) == Big(b)
    ensures a == b
  {
    if |a| < |b| {
      ShorterIsLess(a, b);
    } else if |b| < |a| {
      ShorterIsLess(b, a);
    } else {
      BigInjective(a, b);
    }
  }

  // ---- the writer ----

  /** The first digit that is not zero, or the length. */
  method SkipZeros(digits: Bytes) returns (start: nat)
    ensures start <= |digits| && Trimmed(digits) == digits[start..]
  {
    start := 0;
    while start < |digits| && digits[start] == 0
      invariant 0 <= start <= |digits| && Trimmed(digits[start..]) == Trimmed(digits)
    {
      assert digits[start..][1..] == digits[start + 1..];
      start := start + 1;
    }
  }

  /** What putting data does to a writer: all of it or an error that stays, and never past the buffer. */
  ghost predicate Appended(was: Bytes, failed: bool, data: Bytes, cap: nat, now: Bytes, error: bool)
  {
    && error == (failed || |was| + |data| > cap)
    && (failed ==> now == was)
    && (if error then was <= now <= was + data else now == was + data)
  }

  lemma AppendedTwice(was: Bytes, failed: bool, a: Bytes, b: Bytes, cap: nat, mid: Bytes, wrong: bool, now: Bytes,
                      error: bool)
    requires Appended(was, failed, a, cap, mid, wrong) && Appended(mid, wrong, b, cap, now, error)
    ensures Appended(was, failed, a + b, cap, now, error)
  {
    assert was + (a + b) == (was + a) + b;
  }

  /** struct ssh_writer */
  class Writer {
    const buf: array<byte>
    var len: nat
    var error: bool

    ghost predicate Valid()
      reads this
    {
      len <= buf.Length < SIGN
    }

    ghost function Written(): Bytes
      requires Valid()
      reads this, buf
    {
      buf[..len]
    }

    ghost predicate Holds(was: Bytes, failed: bool, data: Bytes)
      reads this, buf
    {
      Valid() && Appended(was, failed, data, buf.Length, Written(), error)
    }

    constructor (room: array<byte>)
      requires room.Length < SIGN
      ensures Valid() && buf == room && Written() == [] && !error
    {
      buf, len, error := room, 0, false;
    }

    method PutData(data: Bytes)
      requires Valid()
      modifies this, buf
      ensures Holds(old(Written()), old(error), data)
    {
      if error { return; }
      if len + |data| > buf.Length {
        error := true;
        return;
      }
      ghost var was := Written();
      var i := 0;
      while i < |data|
        invariant 0 <= i <= |data| && len == |was| && len + |data| <= buf.Length && !error
        invariant buf[..len + i] == was + data[..i]
      {
        buf[len + i] := data[i];
        i := i + 1;
      }
      len := len + |data|;
      assert data[..|data|] == data;
    }

    method PutNumber(n: int)
      requires Valid()
      modifies this, buf
      ensures Holds(old(Written()), old(error), U32(n))
    {
      PutData(U32(n));
    }

    method PutPair(a: Bytes, b: Bytes)
      requires Valid()
      modifies this, buf
      ensures Holds(old(Written()), old(error), a + b)
    {
      ghost var was, failed := Written(), error;
      PutData(a);
      ghost var mid, wrong := Written(), error;
      PutData(b);
      AppendedTwice(was, failed, a, b, buf.Length, mid, wrong, Written(), error);
    }

    /** ssh_writer_put_string */
    method PutString(s: Bytes)
      requires Valid()
      modifies this, buf
      ensures Holds(old(Written()), old(error), U32(|s|) + s)
    {
      PutPair(U32(|s|), s);
    }

    /** A string with a zero byte in front, put piece by piece. */
    method PutSigned(rest: Bytes)
      requires Valid()
      modifies this, buf
      ensures Holds(old(Written()), old(error), U32(|rest| + 1) + ([0] + rest))
    {
      ghost var was, failed := Written(), error;
      var size := U32(|rest| + 1);
      PutPair(size, [0]);
      ghost var mid, wrong := Written(), error;
      PutData(rest);
      AppendedTwice(was, failed, size + [0], rest, buf.Length, mid, wrong, Written(), error);
      assert size + [0] + rest == size + ([0] + rest);
    }

    /** ssh_writer_put_mpint: the zeros are skipped by a loop, and the length goes out before the sign byte. */
    method PutMpint(digits: Bytes)
      requires Valid()
      modifies this, buf
      ensures Holds(old(Written()), old(error), Encoded(Mpint(digits)))
    {
      var start := SkipZeros(digits);
      if start == |digits| {
        assert digits[start..] == [];
        PutNumber(0);
        assert U32(0) + [] == U32(0);
        return;
      }
      var rest := digits[start..];
      assert Trimmed(digits) == rest;
      if rest[0] >= 0x80 {
        PutSigned(rest);
      } else {
        PutString(rest);
      }
    }

    method Put(f: Field)
      requires Valid()
      modifies this, buf
      ensures Holds(old(Written()), old(error), Encoded(f))
    {
      match f
      case Byte(b) => PutData([b]);
      case Flag(on) => PutData([if on then 1 else 0]);
      case Number(n) => PutNumber(n);
      case Text(s) => PutString(s);
      case Mpint(digits) => PutMpint(digits);
    }
  }

  // ---- the reader ----

  /** Two numbers below 2^32 added in 32 bits, the sum taken as an int. */
  function Sum32(x: u32, y: u32): int { Signed((x + y) % WORD) }

  /** The sum is the true one exactly if that is below 2^31; otherwise it falls below x. */
  lemma SumGoesForward(x: u32, y: u32)
    requires x < SIGN
    ensures if x + y < SIGN then Sum32(x, y) == x + y else Sum32(x, y) < x
  {}

  /** struct ssh_reader; the position is an int because a length can move it back. */
  class Reader {
    const buf: Bytes
    var pos: int
    var error: bool

    ghost predicate Valid()
      reads this
    {
      0 <= pos <= |buf| < SIGN
    }

    ghost function Rest(): Bytes
      requires Valid()
      reads this
    {
      buf[pos..]
    }

    constructor (data: Bytes)
      requires |data| < SIGN
      ensures Valid() && buf == data && Rest() == data && !error
    {
      buf, pos, error := data, 0, false;
    }

    method GetByte() returns (b: byte)
      requires Valid()
      modifies this
      ensures Valid() && error == (old(error) || old(Rest()) == [])
      ensures if error then b == 0 && pos == old(pos) else old(Rest()) == [b] + Rest()
    {
      if error || pos + 1 > |buf| {
        error := true;
        return 0;
      }
      b := buf[pos];
      pos := pos + 1;
    }

    method GetNumber() returns (v: nat)
      requires Valid()
      modifies this
      ensures Valid() && error == (old(error) || |old(Rest())| < 4)
      ensures if error then v == 0 && pos == old(pos) else v == ReadU32(old(Rest())) && pos == old(pos) + 4
    {
      if error || pos + 4 > |buf| {
        error := true;
        return 0;
      }
      v := ReadU32(buf[pos..]);
      pos := pos + 4;
    }

    /** ssh_reader_get_string: where the string starts and how long it says it is, both meaningless on an error.
        Position and length are added in 32 bits. A length past the rest is an error only while the sum stays below
        2^31, and just then the reader goes forward. */
    method GetString() returns (at: int, length: int)
      requires Valid()
      modifies this
      ensures old(error) || |old(Rest())| < 4 ==> error
      ensures !old(error) && |old(Rest())| >= 4 ==>
        var n, start := ReadU32(old(Rest())), old(pos) + 4;
        && error == (n > |old(Rest())| - 4 && start + n < SIGN)
        && (!error ==> at == start && length == Signed(n) && pos == Sum32(start, n))
        && (!error ==> (at <= pos <==> start + n < SIGN) && (at <= pos ==> Valid() && pos == at + length))
      ensures error ==> Valid()
    {
      at, length := 0, 0;
      var size := GetNumber();
      if error { return; }
      SumGoesForward(pos, size);
      if Sum32(pos, size) > |buf| {
        error := true;
        return;
      }
      at, length := pos, Signed(size);
      pos := Sum32(pos, size);
    }

    /** What a peer who expects a field like f reads. */
    method Get(f: Field, ghost rest: Bytes) returns (g: Field)
      requires Valid() && !error && Rest() == Encoded(f) + rest
      modifies this
      ensures Valid() && !error && Rest() == rest && g == Seen(f)
    {
      match f
      case Byte(_) =>
        ghost var here := Rest();
        var b := GetByte();
        assert here[0] == b && here[1..] == rest;
        g := Byte(b);
      case Flag(_) =>
        ghost var here := Rest();
        var b := GetByte();
        assert here[0] == b && here[1..] == rest;
        g := Flag(b != 0);
      case Number(n) =>
        U32RoundTrip(n, rest);
        var v := GetNumber();
        g := Number(v);
      case Text(s) =>
        g := GetText(s, rest);
      case Mpint(digits) =>
        g := GetText(MpintBody(digits), rest);
    }

    method GetText(ghost s: Bytes, ghost rest: Bytes) returns (g: Field)
      requires Valid() && !error && Rest() == U32(|s|) + s + rest
      modifies this
      ensures Valid() && !error && Rest() == rest && g == Text(s)
    {
      ghost var here := Rest();
      assert here == U32(|s|) + (s + rest);
      U32RoundTrip(|s|, s + rest);
      var at, length := GetString();
      assert here[4..4 + |s|] == s && here[4 + |s|..] == rest;
      assert buf[at..at + length] == here[4..4 + |s|] && buf[pos..] == here[4 + |s|..];
      g := Text(buf[at..at + length]);
    }
  }

  /** Two lengths that are longer than what is left and still no error: the reader ends before its buffer. */
  method GoesBack() returns (first: int, second: int)
    ensures first == -0x7fff_fffd && second == -0x7fff_fffc
  {
    FourBytes(0x7f, 0xff, 0xff, 0xff, []);
    FourBytes(0x80, 0, 0, 0, []);
    assert [0x7f, 0xff, 0xff, 0xff] + [] == [0x7f, 0xff, 0xff, 0xff] && [0x80, 0, 0, 0] + [] == [0x80, 0, 0, 0];
    first := Reread([0x7f, 0xff, 0xff, 0xff], 0x7fff_ffff);
    second := Reread([0x80, 0, 0, 0], 0x8000_0000);
  }

  /** Where the reader stands after a string whose length leaves no error. */
  method Reread(data: Bytes, ghost n: u32) returns (pos: int)
    requires |data| == 4 && ReadU32(data) == n && 4 + n >= SIGN
    ensures pos == Sum32(4, n) < 4
  {
    var r := new Reader(data);
    var at, length := r.GetString();
    pos := r.pos;
  }

  // ---- written and read back ----

  /** What the reader sees of a field: an mpint arrives as the string of its canonical body. */
  function Seen(f: Field): Field
  {
    match f
    case Mpint(digits) => Text(MpintBody(digits))
    case _ => f
  }

  function AllSeen(fields: seq<Field>): seq<Field>
  {
    seq(|fields|, i requires 0 <= i < |fields| => Seen(fields[i]))
  }

  function Encodings(fields: seq<Field>): Bytes
  {
    if fields == [] then [] else Encoded(fields[0]) + Encodings(fields[1..])
  }

  lemma {:induction false} EncodingsSnoc(fields: seq<Field>, f: Field)
    ensures Encodings(fields + [f]) == Encodings(fields) + Encoded(f)
  {
    var all := fields + [f];
    if fields == [] {
      assert all[1..] == [];
    } else {
      assert all[1..] == fields[1..] + [f];
      EncodingsSnoc(fields[1..], f);
    }
  }

  lemma EncodingsNext(fields: seq<Field>, i: nat, f: Field)
    requires i < |fields| && f == fields[i]
    ensures Encodings(fields[..i + 1]) == Encodings(fields[..i]) + Encoded(f)
  {
    PrefixNext(fields, i);
    EncodingsSnoc(fields[..i], f);
  }

  lemma PrefixNext<T>(s: seq<T>, i: nat)
    requires i < |s|
    ensures s[..i + 1] == s[..i] + [s[i]]
  {}

  /** Fields written one after the other into room of any size and read back in order are the fields that were
      written, and they are all there exactly when their encodings fit. */
  method Exchange(fields: seq<Field>, room: nat) returns (ok: bool, seen: seq<Field>)
    requires room < SIGN
    ensures ok <==> |Encodings(fields)| <= room
    ensures ok ==> seen == AllSeen(fields)
  {
    var buf := new byte[room];
    var w := new Writer(buf);
    WriteAll(w, fields);
    ok, seen := !w.error, [];
    if ok {
      var r := new Reader(w.buf[..w.len]);
      seen := ReadAll(r, fields);
    }
  }

  method WriteAll(w: Writer, fields: seq<Field>)
    requires w.Valid() && w.Written() == [] && !w.error
    modifies w, w.buf
    ensures w.Holds([], false, Encodings(fields))
  {
    var i := 0;
    while i < |fields|
      invariant 0 <= i <= |fields| && w.Holds([], false, Encodings(fields[..i]))
    {
      var f := fields[i];
      ghost var done, mid, wrong := Encodings(fields[..i]), w.Written(), w.error;
      w.Put(f);
      AppendedTwice([], false, done, Encoded(f), w.buf.Length, mid, wrong, w.Written(), w.error);
      EncodingsNext(fields, i, f);
      i := i + 1;
    }
    assert fields[..|fields|] == fields;
  }

  lemma EncodingsStep(fields: seq<Field>, i: nat, f: Field, next: seq<Field>)
    requires i < |fields| && f == fields[i] && next == fields[i + 1..]
    ensures Encodings(fields[i..]) == Encoded(f) + Encodings(next)
    ensures AllSeen(fields[..i + 1]) == AllSeen(fields[..i]) + [Seen(f)]
  {
    assert fields[i..][1..] == next;
  }

  method ReadAll(r: Reader, fields: seq<Field>) returns (seen: seq<Field>)
    requires r.Valid() && !r.error && r.Rest() == Encodings(fields)
    modifies r
    ensures seen == AllSeen(fields)
  {
    seen := [];
    var i := 0;
    while i < |fields|
      invariant 0 <= i <= |fields| && r.Valid() && !r.error && r.Rest() == Encodings(fields[i..])
      invariant seen == AllSeen(fields[..i])
    {
      var f := fields[i];
      ghost var next := fields[i + 1..];
      EncodingsStep(fields, i, f, next);
      var g := r.Get(f, Encodings(next));
      seen := seen + [g];
      i := i + 1;
    }
    assert fields[..|fields|] == fields;
  }
}
