// Bytes, and the big-endian and little-endian integer layouts, that every other
// module builds on.
module ByteOrder {

  type byte = x: int | 0 <= x < 256

  function Pow256(n: nat): (p: nat)
    ensures p > 0
  {
    if n == 0 then 1 else 256 * Pow256(n - 1)
  }

  function Zeros(n: nat): (z: seq<byte>)
    ensures |z| == n
  {
    seq(n, _ => 0)
  }

  // Overwrites part of a byte string.
  function WriteAt(b: seq<byte>, offset: nat, data: seq<byte>): (r: seq<byte>)
    requires offset + |data| <= |b|
    ensures |r| == |b|
  {
    b[..offset] + data + b[offset + |data|..]
  }

  // `to_be_bytes`: most significant byte first.
  function BeBytes(width: nat, n: nat): (b: seq<byte>)
    requires n < Pow256(width)
    ensures |b| == width
    ensures BeValue(b) == n
  {
    if width == 0 then [] else BeBytes(width - 1, n / 256) + [n % 256]
  }

  // `from_be_bytes`.
  function BeValue(b: seq<byte>): (n: nat)
    ensures n < Pow256(|b|)
  {
    if b == [] then 0 else BeValue(b[..|b| - 1]) * 256 + b[|b| - 1]
  }

  // A byte string is the only big-endian form of its value.
  lemma {:induction false} BeBytesOfValue(b: seq<byte>)
    ensures BeBytes(|b|, BeValue(b)) == b
  {
    if b != [] {
      BeBytesOfValue(b[..|b| - 1]);
    }
  }

  // Byte `i` is the digit of weight 256^(width - 1 - i): the most significant one
  // comes first, whatever the width.
  lemma {:induction false} BeBytesAt(width: nat, n: nat, i: nat)
    requires n < Pow256(width) && i < width
    ensures BeBytes(width, n)[i] == n / Pow256(width - 1 - i) % 256
  {
    if i == width - 1 {
      assert n / Pow256(0) == n;
    } else {
      BeBytesAt(width - 1, n / 256, i);
      DivDiv(n, Pow256(width - 2 - i));
    }
  }

  lemma {:induction false} DivDiv(n: int, p: nat)
    requires p > 0
    ensures n / 256 / p == n / (256 * p)
  {
    var q := n / 256;
    var r := 256 * (q % p) + n % 256;
    Regroup(n, q, p);
    QuotientOf(n, 256 * p, q / p, r);
  }

  lemma {:induction false} Regroup(n: int, q: int, p: nat)
    requires p > 0 && q == n / 256
    ensures n == (256 * p) * (q / p) + (256 * (q % p) + n % 256)
    ensures 256 * (q % p) + n % 256 < 256 * p
  {
    assert q == p * (q / p) + q % p;
    assert 256 * (p * (q / p)) == (256 * p) * (q / p);
  }

  // Division with remainder is unique.
  lemma {:induction false} QuotientOf(n: int, d: nat, a: int, r: nat)
    requires r < d && n == d * a + r
    ensures n / d == a && n % d == r
  {
    var e := n / d - a;
    assert n == d * (n / d) + n % d;
    assert d * e == d * (n / d) - d * a == r - n % d;
    if e != 0 {
      LargeMultiple(d, e);
    }
  }

  lemma {:induction false} LargeMultiple(d: nat, e: int)
    requires e != 0
    ensures d * e >= d || d * e + d <= 0
  {
    var f := if e > 0 then e - 1 else -e - 1;
    assert d * f >= 0;
    assert d * e == if e > 0 then d * f + d else -(d * f) - d;
  }

  // A byte string reads as its front, shifted by the length of the back, plus the
  // back; a single byte as itself.
  lemma {:induction false} BeValueOfConcat(a: seq<byte>, b: seq<byte>)
    ensures BeValue(a + b) == BeValue(a) * Pow256(|b|) + BeValue(b)
  {
    if b == [] {
      assert a + b == a;
    } else {
      var front := b[..|b| - 1];
      BeValueOfConcat(a, front);
      assert (a + b)[..|a + b| - 1] == a + front;
      Shift(BeValue(a), Pow256(|front|), BeValue(front));
    }
  }

  lemma {:induction false} Shift(x: nat, p: nat, v: nat)
    ensures (x * p + v) * 256 == x * (256 * p) + v * 256
  {
    assert (x * p) * 256 == x * (256 * p);
  }

  lemma {:induction false} ShortValues(x: byte, y: byte, z: byte, w: byte)
    ensures BeValue([x]) == x
    ensures BeValue([x, y]) == 0x100 * x + y
    ensures BeValue([x, y, z, w]) == 0x100_0000 * x + 0x1_0000 * y + 0x100 * z + w
    ensures LeValue([x]) == x
    ensures LeValue([x, y]) == x + 0x100 * y
  {
    assert [x, y][..1] == [x];
    assert [x, y, z][..2] == [x, y];
    assert [x, y, z, w][..3] == [x, y, z];
    assert BeValue([x]) == x && BeValue([x, y]) == 0x100 * x + y;
    assert BeValue([x, y, z]) == 0x100 * (0x100 * x + y) + z;
    assert [x, y][1..] == [y] && LeValue([y]) == y;
  }

  // The powers, ranges and conversions of the integer types in use, as numerals.
  lemma {:induction false} Widths()
    ensures Pow256(0) == 1 && Pow256(1) == 0x100 && Pow256(2) == 0x1_0000 && Pow256(4) == 0x1_0000_0000
    ensures Pow256(8) == 0x1_0000_0000_0000_0000
  {
    assert Pow256(3) == 0x100_0000;
    assert Pow256(4) == 0x1_0000_0000;
    assert Pow256(5) == 0x100_0000_0000;
    assert Pow256(6) == 0x1_0000_0000_0000;
  }

  // `to_le_bytes`: least significant byte first.
  function LeBytes(width: nat, n: nat): (b: seq<byte>)
    requires n < Pow256(width)
    ensures |b| == width
    ensures LeValue(b) == n
  {
    if width == 0 then [] else [n % 256] + LeBytes(width - 1, n / 256)
  }

  // `from_le_bytes`.
  function LeValue(b: seq<byte>): (n: nat)
    ensures n < Pow256(|b|)
  {
    if b == [] then 0 else b[0] + 256 * LeValue(b[1..])
  }

  lemma {:induction false} LeBytesOfValue(b: seq<byte>)
    ensures LeBytes(|b|, LeValue(b)) == b
  {
    if b != [] {
      LeBytesOfValue(b[1..]);
      var rest := LeValue(b[1..]);
      assert LeValue(b) == b[0] + 256 * rest;
      assert LeValue(b) % 256 == b[0] && LeValue(b) / 256 == rest;
    }
  }

  // Byte `i` is the digit of weight 256^i.
  lemma {:induction false} LeBytesAt(width: nat, n: nat, i: nat)
    requires n < Pow256(width) && i < width
    ensures LeBytes(width, n)[i] == n / Pow256(i) % 256
  {
    if i == 0 {
      assert n / Pow256(0) == n;
    } else {
      LeBytesAt(width - 1, n / 256, i - 1);
      DivDiv(n, Pow256(i - 1));
    }
  }

  // The range of a Rust integer of `width` bytes.
  predicate InRange(width: nat, signed: bool, n: int) {
    if signed then -(Pow256(width) as int) <= 2 * n < Pow256(width) else 0 <= n < Pow256(width)
  }

  // The two's complement bit pattern of an integer.
  function ToBits(width: nat, signed: bool, n: int): (u: nat)
    requires InRange(width, signed, n)
    ensures u < Pow256(width)
    ensures FromBits(width, signed, u) == n
  {
    if n < 0 then n + Pow256(width) else n
  }

  function FromBits(width: nat, signed: bool, u: nat): (n: int)
    requires u < Pow256(width)
    ensures InRange(width, signed, n)
  {
    if signed && 2 * u >= Pow256(width) then u - Pow256(width) else u
  }

  lemma {:induction false} ToBitsOfBits(width: nat, signed: bool, u: nat)
    requires u < Pow256(width)
    ensures ToBits(width, signed, FromBits(width, signed, u)) == u
  {
  }

  lemma {:induction false} Ranges(n: int)
    ensures InRange(1, false, n) <==> 0 <= n < 0x100
    ensures InRange(2, false, n) <==> 0 <= n < 0x1_0000
    ensures InRange(4, false, n) <==> 0 <= n < 0x1_0000_0000
    ensures InRange(8, false, n) <==> 0 <= n < 0x1_0000_0000_0000_0000
    ensures InRange(1, true, n) <==> -0x80 <= n < 0x80
    ensures InRange(2, true, n) <==> -0x8000 <= n < 0x8000
    ensures InRange(4, true, n) <==> -0x8000_0000 <= n < 0x8000_0000
    ensures InRange(8, true, n) <==> -0x8000_0000_0000_0000 <= n < 0x8000_0000_0000_0000
  {
    Widths();
  }

  // The big-endian bytes of a two's complement pattern are the digits of the
  // integer itself, rounded down, also of a negative one.
  lemma {:induction false} TwosComplementAt(width: nat, signed: bool, n: int, i: nat)
    requires InRange(width, signed, n) && i < width
    ensures BeBytes(width, ToBits(width, signed, n))[i] == n / Pow256(width - 1 - i) % 256
  {
    BeBytesAt(width, ToBits(width, signed, n), i);
    if n < 0 {
      PowSplit(width - 1 - i, i + 1);
      SameDigit(n, Pow256(width - 1 - i), Pow256(i));
    }
  }

  lemma {:induction false} SameDigit(n: int, p: nat, q: nat)
    requires p > 0
    ensures (n + p * (256 * q)) / p % 256 == n / p % 256
  {
    AddMultiple(n, p, 256 * q);
  }

  lemma {:induction false} PowSplit(a: nat, b: nat)
    ensures Pow256(a + b) == Pow256(a) * Pow256(b)
  {
    if b > 0 {
      PowSplit(a, b - 1);
      assert 256 * (Pow256(a) * Pow256(b - 1)) == Pow256(a) * (256 * Pow256(b - 1));
    }
  }

  lemma {:induction false} AddMultiple(n: int, p: nat, k: nat)
    requires p > 0
    ensures (n + p * k) / p == n / p + k
  {
    assert n == p * (n / p) + n % p;
    assert n + p * k == p * (n / p + k) + n % p by {
      assert p * (n / p + k) == p * (n / p) + p * k;
    }
    QuotientOf(n + p * k, p, n / p + k, n % p);
  }

  // `n as usize` with a 64-bit `usize`: a negative integer wraps round.
  function AsUsize(n: int): (u: nat)
  {
    n % 0x1_0000_0000_0000_0000
  }

  // `as usize` keeps an unsigned integer and wraps a negative one round to the
  // top of the range.
  lemma {:induction false} AsUsizeOf(width: nat, signed: bool, n: int)
    requires width == 1 || width == 2 || width == 4 || width == 8
    requires InRange(width, signed, n)
    ensures AsUsize(n) == if n >= 0 then n else 0x1_0000_0000_0000_0000 + n
  {
    Ranges(n);
  }
}
