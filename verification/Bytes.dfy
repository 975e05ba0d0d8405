/** Numbers in memory: little-endian bytes. */
module ByteCodes {

  type Byte = x: int | 0 <= x < 256

  type Bytes = seq<Byte>

  /** An unsigned 32-bit number. */
  type U32 = x: int | 0 <= x <= 0xFFFF_FFFF

  /** A signed 64-bit number. */
  type I64 = x: int | -0x8000_0000_0000_0000 <= x <= 0x7FFF_FFFF_FFFF_FFFF

  /** 256 to the power `k`. */
  function Bound(k: nat): (b: nat)
    ensures b >= 1
  {
    if k == 0 then 1 else 256 * Bound(k - 1)
  }

  lemma Bounds()
    ensures Bound(4) == 0x1_0000_0000 && Bound(8) == 0x1_0000_0000_0000_0000
  {
    assert Bound(4) == 0x1_0000_0000;
  }

  /** The lowest `k` bytes of a number, least significant first. */
  function Digits(n: nat, k: nat): (b: Bytes)
    ensures |b| == k
  {
    if k == 0 then [] else [n % 256] + Digits(n / 256, k - 1)
  }

  /** The value of `k` bytes, least significant first. */
  function Number(b: Bytes, at: nat, k: nat): (n: nat)
    requires at + k <= |b|
    ensures n < Bound(k)
    decreases k
  {
    if k == 0 then 0 else b[at] + 256 * Number(b, at + 1, k - 1)
  }

  /** Wherever the digits of a number stand, they read as the number. */
  lemma {:induction false} DigitsNumber(n: nat, k: nat, b: Bytes, at: nat)
    requires n < Bound(k) && at + k <= |b| && b[at..at + k] == Digits(n, k)
    ensures Number(b, at, k) == n
    decreases k
  {
    if k > 0 {
      var d := b[at..at + k];
      assert b[at] == d[0] && b[at + 1..at + k] == d[1..];
      DigitsNumber(n / 256, k - 1, b, at + 1);
    }
  }

  /** The byte at place `i` counts 256 to the power `i`. */
  lemma {:induction false} DigitAt(n: nat, k: nat, i: nat)
    requires i < k
    ensures Digits(n, k)[i] == n / Bound(i) % 256
  {
    if i > 0 {
      DigitAt(n / 256, k - 1, i - 1);
      DivideTwice(n, Bound(i - 1));
    }
  }

  lemma DivideTwice(n: nat, b: nat)
    requires b > 0
    ensures n / (256 * b) == n / 256 / b
  {
    var q, r := n / 256 / b, n / 256 % b;
    assert n / 256 == q * b + r;
    assert n == q * (256 * b) + (256 * r + n % 256);
    Quotient(n, 256 * b, q, 256 * r + n % 256);
  }

  lemma Quotient(n: nat, d: nat, q: nat, r: nat)
    requires d > 0 && r < d && n == q * d + r
    ensures n / d == q
  {
    SameQuotient(n / d, n % d, q, r, d);
  }

  lemma SameQuotient(p: nat, s: nat, q: nat, r: nat, d: nat)
    requires s < d && r < d && p * d + s == q * d + r
    ensures p == q
  {
    if p < q {
      Smaller(p, s, q, d);
    } else if p > q {
      Smaller(q, r, p, d);
    }
  }

  lemma Smaller(p: nat, s: nat, q: nat, d: nat)
    requires p < q && s < d
    ensures p * d + s < q * d
  {
    AtLeastOnce(q - p, d);
    assert (q - p) * d == q * d - p * d;
  }

  lemma AtLeastOnce(k: nat, d: nat)
    requires k >= 1
    ensures k * d >= d
  {
  }

  /** The same bytes read as the same number. */
  lemma {:induction false} NumberSame(b: Bytes, c: Bytes, at: nat, k: nat)
    requires at + k <= |b| && at + k <= |c| && forall i :: at <= i < at + k ==> b[i] == c[i]
    ensures Number(b, at, k) == Number(c, at, k)
    decreases k
  {
    if k > 0 {
      NumberSame(b, c, at + 1, k - 1);
    }
  }

  // ---- 32 bits ----

  function PutU32(x: U32): (b: Bytes)
    ensures |b| == 4
  {
    Digits(x, 4)
  }

  function GetU32(b: Bytes, at: nat): (x: U32)
    requires at + 4 <= |b|
  {
    Bounds();
    Number(b, at, 4)
  }

  /** Four bytes as a number, the first one lowest. */
  function Word(b0: nat, b1: nat, b2: nat, b3: nat): nat {
    b0 + 0x100 * b1 + 0x1_0000 * b2 + 0x100_0000 * b3
  }

  /** Least significant byte first. */
  lemma U32Bytes(x: U32)
    ensures var d := PutU32(x);
      && d[0] == x % 256 && d[1] == x / 0x100 % 256 && d[2] == x / 0x1_0000 % 256 && d[3] == x / 0x100_0000 % 256
  {
    DigitAt(x, 4, 0);
    DigitAt(x, 4, 1);
    DigitAt(x, 4, 2);
    DigitAt(x, 4, 3);
  }

  lemma U32Value(b: Bytes, at: nat)
    requires at + 4 <= |b|
    ensures GetU32(b, at) == Word(b[at], b[at + 1], b[at + 2], b[at + 3])
  {
    assert Number(b, at, 4) == b[at] + 256 * Number(b, at + 1, 3);
    assert Number(b, at + 1, 3) == b[at + 1] + 256 * Number(b, at + 2, 2);
    assert Number(b, at + 2, 2) == b[at + 2] + 256 * Number(b, at + 3, 1);
    assert Number(b, at + 3, 1) == b[at + 3];
  }

  lemma U32RoundTrip(x: U32, b: Bytes, at: nat)
    requires at + 4 <= |b| && b[at..at + 4] == PutU32(x)
    ensures GetU32(b, at) == x
  {
    Bounds();
    DigitsNumber(x, 4, b, at);
  }

  // ---- 64 bits, two's complement ----

  function ToUnsigned(x: I64): (n: nat)
    ensures n < 0x1_0000_0000_0000_0000
  {
    if x >= 0 then x else x + 0x1_0000_0000_0000_0000
  }

  function ToSigned(n: nat): I64
    requires n < 0x1_0000_0000_0000_0000
  {
    if n < 0x8000_0000_0000_0000 then n else n - 0x1_0000_0000_0000_0000
  }

  function PutI64(x: I64): (b: Bytes)
    ensures |b| == 8
  {
    Digits(ToUnsigned(x), 8)
  }

  function GetI64(b: Bytes, at: nat): I64
    requires at + 8 <= |b|
  {
    Bounds();
    ToSigned(Number(b, at, 8))
  }

  /** Least significant byte first. */
  lemma I64Bytes(x: I64)
    ensures forall i :: 0 <= i < 8 ==>
      PutI64(x)[i] == (if x >= 0 then x else x + 0x1_0000_0000_0000_0000) / Bound(i) % 256
  {
    forall i | 0 <= i < 8
      ensures PutI64(x)[i] == ToUnsigned(x) / Bound(i) % 256
    {
      DigitAt(ToUnsigned(x), 8, i);
    }
  }

  lemma I64Value(b: Bytes, at: nat)
    requires at + 8 <= |b|
    ensures var n := GetU32(b, at) + 0x1_0000_0000 * GetU32(b, at + 4);
      GetI64(b, at) == if n < 0x8000_0000_0000_0000 then n else n - 0x1_0000_0000_0000_0000
  {
    assert Number(b, at, 8) == b[at] + 256 * Number(b, at + 1, 7);
    assert Number(b, at + 1, 7) == b[at + 1] + 256 * Number(b, at + 2, 6);
    assert Number(b, at + 2, 6) == b[at + 2] + 256 * Number(b, at + 3, 5);
    assert Number(b, at + 3, 5) == b[at + 3] + 256 * Number(b, at + 4, 4);
    U32Value(b, at);
  }

  lemma I64RoundTrip(x: I64, b: Bytes, at: nat)
    requires at + 8 <= |b| && b[at..at + 8] == PutI64(x)
    ensures GetI64(b, at) == x
  {
    Bounds();
    DigitsNumber(ToUnsigned(x), 8, b, at);
  }

  // ---- writing into a buffer ----

  /** The bytes of `b` from `at` on are replaced by `d`. */
  function Splice(b: Bytes, at: nat, d: Bytes): (r: Bytes)
    requires at + |d| <= |b|
    ensures |r| == |b|
    ensures forall i :: 0 <= i < |b| ==> r[i] == if at <= i < at + |d| then d[i - at] else b[i]
  {
    b[..at] + d + b[at + |d|..]
  }

  function Zeros(n: nat): (b: Bytes)
    ensures |b| == n && forall i :: 0 <= i < n ==> b[i] == 0
  {
    seq(n, _ => 0)
  }

  /** A number written into a buffer reads back. */
  lemma U32Written(b: Bytes, at: nat, x: U32)
    requires at + 4 <= |b|
    ensures GetU32(Splice(b, at, PutU32(x)), at) == x
  {
    var r := Splice(b, at, PutU32(x));
    assert r[at..at + 4] == PutU32(x);
    U32RoundTrip(x, r, at);
  }

  /** A number elsewhere in the buffer is not disturbed. */
  lemma U32Kept(b: Bytes, at: nat, d: Bytes, other: nat)
    requires at + |d| <= |b| && other + 4 <= |b| && (other + 4 <= at || at + |d| <= other)
    ensures GetU32(Splice(b, at, d), other) == GetU32(b, other)
  {
    NumberSame(Splice(b, at, d), b, other, 4);
  }
}
