/**
 * The binary codec of utils/Parser.java: a Java `long` to and from its
 * 8-byte big-endian two's-complement form (the default byte order of
 * java.nio.ByteBuffer). The transaction log uses it for its header.
 */
module Parser {

  const TWO_63: int := 0x8000_0000_0000_0000
  const TWO_64: int := 0x1_0000_0000_0000_0000

  /** A Java `long`. */
  type Int64 = x: int | -TWO_63 <= x < TWO_63

  /** The bit pattern of a Java `byte` (the signed byte b is stored as b & 0xFF). */
  type Byte = b: int | 0 <= b < 256

  /** Java's wrap-around of `long` arithmetic: the representative of x modulo 2^64. */
  function Wrap64(x: int): (r: Int64)
    ensures (r - x) % TWO_64 == 0
    ensures -TWO_63 <= x < TWO_63 ==> r == x
  {
    (x + TWO_63) % TWO_64 - TWO_63
  }

  function Pow256(n: nat): (r: int)
    ensures r >= 1
  {
    if n == 0 then 1 else 256 * Pow256(n - 1)
  }

  lemma Pow256Eight()
    ensures Pow256(8) == TWO_64
  {
    assert Pow256(2) == 0x1_0000;
    assert Pow256(4) == 0x1_0000_0000;
    assert Pow256(6) == 0x1_0000_0000_0000;
  }

  /** The unsigned number whose big-endian base-256 digits are s. */
  function BigEndianValue(s: seq<Byte>): (r: nat)
    ensures r < Pow256(|s|)
  {
    if s == [] then 0
    else
      var init := BigEndianValue(s[..|s| - 1]);
      assert init * 256 <= (Pow256(|s| - 1) - 1) * 256;
      init * 256 + s[|s| - 1]
  }

  /** The n lowest base-256 digits of u, most significant first. */
  function BigEndianBytes(u: nat, n: nat): (r: seq<Byte>)
    ensures |r| == n
  {
    if n == 0 then [] else BigEndianBytes(u / 256, n - 1) + [u % 256]
  }

  /** The unsigned view of a long's 64 bits. */
  function ToUnsigned64(v: Int64): (u: nat)
    ensures u < TWO_64
    ensures (u - v) % TWO_64 == 0
  {
    if v < 0 then v + TWO_64 else v
  }

  /** The long whose 64 bits, read unsigned, are u. */
  function ToSigned64(u: nat): (v: Int64)
    requires u < TWO_64
    ensures ToUnsigned64(v) == u
  {
    if u < TWO_63 then u else u - TWO_64
  }

  /** Parser.long2Byte: ByteBuffer.allocate(8).putLong(value).array(). */
  function Long2Byte(value: Int64): (r: seq<Byte>)
    ensures |r| == 8
  {
    Pow256Eight();
    BigEndianBytes(ToUnsigned64(value), 8)
  }

  /** Parser.parseLong: ByteBuffer.wrap(buf, 0, 8).getLong(); wrap throws on a buffer shorter than 8. */
  function ParseLong(buf: seq<Byte>): (r: Int64)
    requires |buf| >= 8
    ensures Long2Byte(r) == buf[..8]
  {
    Pow256Eight();
    BytesOfValue(buf[..8]);
    ToSigned64(BigEndianValue(buf[..8]))
  }

  lemma {:induction false} ValueOfBytes(u: nat, n: nat)
    requires u < Pow256(n)
    ensures BigEndianValue(BigEndianBytes(u, n)) == u
  {
    if n > 0 {
      var r := BigEndianBytes(u, n);
      assert r[..n - 1] == BigEndianBytes(u / 256, n - 1);
      ValueOfBytes(u / 256, n - 1);
    }
  }

  lemma {:induction false} BytesOfValue(s: seq<Byte>)
    ensures BigEndianBytes(BigEndianValue(s), |s|) == s
  {
    if s != [] {
      var init := s[..|s| - 1];
      var v := BigEndianValue(s);
      assert v == BigEndianValue(init) * 256 + s[|s| - 1];
      assert v / 256 == BigEndianValue(init);
      assert v % 256 == s[|s| - 1];
      BytesOfValue(init);
      assert init + [s[|s| - 1]] == s;
    }
  }

  /** Round trip: decoding an encoded long gives it back. */
  lemma ParseLongOfLong2Byte(v: Int64)
    ensures ParseLong(Long2Byte(v)) == v
  {
    Pow256Eight();
    var b := Long2Byte(v);
    assert b[..8] == b;
    ValueOfBytes(ToUnsigned64(v), 8);
  }

  /** Round trip the other way: re-encoding a decoded buffer gives back its first 8 bytes. */
  lemma Long2ByteOfParseLong(buf: seq<Byte>)
    requires |buf| >= 8
    ensures Long2Byte(ParseLong(buf)) == buf[..8]
  {
  }

  /** parseLong reads only the first 8 bytes of its buffer. */
  lemma ParseLongIgnoresTail(a: seq<Byte>, b: seq<Byte>)
    requires |a| >= 8 && |b| >= 8 && a[..8] == b[..8]
    ensures ParseLong(a) == ParseLong(b)
  {
  }

  /** Every digit of 0 is 0. */
  lemma {:induction false} ZeroDigits(n: nat)
    ensures BigEndianBytes(0, n) == seq(n, _ => 0)
  {
    if n > 0 {
      ZeroDigits(n - 1);
      assert seq(n, _ => 0) == seq(n - 1, _ => 0) + [0];
    }
  }

  /** Eight zero bytes, the header of a new log, decode to 0. */
  lemma ZeroBytesDecodeToZero()
    ensures ParseLong([0, 0, 0, 0, 0, 0, 0, 0]) == 0
    ensures Long2Byte(0) == [0, 0, 0, 0, 0, 0, 0, 0]
  {
    ZeroDigits(8);
    assert Long2Byte(0) == [0, 0, 0, 0, 0, 0, 0, 0];
    ParseLongOfLong2Byte(0);
  }

  lemma {:induction false} MulAtLeast(x: nat, d: nat)
    requires x >= 1
    ensures x * d >= d
  {
    if x > 1 {
      MulAtLeast(x - 1, d);
      assert x * d == (x - 1) * d + d;
    }
  }

  /** Euclidean division is determined by its quotient-remainder equation. */
  lemma DivUnique(a: int, d: int, q: int, r: int)
    requires d > 0 && 0 <= r < d && a == q * d + r
    ensures a / d == q && a % d == r
  {
    var q0, r0 := a / d, a % d;
    assert (q - q0) * d == r0 - r;
    if q > q0 {
      MulAtLeast(q - q0, d);
    } else if q < q0 {
      MulAtLeast(q0 - q, d);
    }
  }

  lemma DivDiv(a: nat, b: nat, c: nat)
    requires b > 0 && c > 0
    ensures a / b / c == a / (b * c)
  {
    var q, r := a / b, a % b;
    var q2, r2 := q / c, q % c;
    assert a == (q2 * c + r2) * b + r;
    assert a == q2 * (b * c) + (r2 * b + r);
    assert r2 * b + r < b * c by {
      MulAtLeast(c - r2, b);
      assert (c - r2) * b == c * b - r2 * b;
    }
    assert r2 * b >= 0;
    DivUnique(a, b * c, q2, r2 * b + r);
  }

  lemma DivAddMultiple(a: int, k: int, d: int)
    requires d > 0
    ensures (a + k * d) / d == a / d + k
  {
    var q, r := a / d, a % d;
    assert a + k * d == (q + k) * d + r;
    DivUnique(a + k * d, d, q + k, r);
  }

  lemma Pow256Add(m: nat, n: nat)
    ensures Pow256(m + n) == Pow256(m) * Pow256(n)
    decreases m
  {
    if m > 0 {
      Pow256Add(m - 1, n);
    }
  }

  /** Digit i of BigEndianBytes(u, n) is u shifted right by 8 * (n - 1 - i) bits, masked to 8 bits. */
  lemma {:induction false} BigEndianBytesAt(u: nat, n: nat, i: nat)
    requires i < n
    ensures BigEndianBytes(u, n)[i] == (u / Pow256(n - 1 - i)) % 256
  {
    if i < n - 1 {
      BigEndianBytesAt(u / 256, n - 1, i);
      DivDiv(u, 256, Pow256(n - 2 - i));
    }
  }

  /**
   * The encoding is big-endian two's complement: byte i of long2Byte(v) is
   * (v >> (56 - 8 * i)) & 0xFF, Java's arithmetic shift being floor division
   * by 2^(56 - 8 * i), which is Dafny's division by a positive divisor.
   */
  lemma Long2ByteAt(v: Int64, i: nat)
    requires i < 8
    ensures Long2Byte(v)[i] == (v / Pow256(7 - i)) % 256
  {
    BigEndianBytesAt(ToUnsigned64(v), 8, i);
    if v < 0 {
      ShiftedByTwo64(v, 7 - i);
    }
  }

  /** 2^64 is 256^(7 - k) * 256 * 256^k. */
  lemma Two64Split(k: nat)
    requires k < 8
    ensures TWO_64 == (256 * Pow256(7 - k)) * Pow256(k)
  {
    Pow256Eight();
    Pow256Add(k, 8 - k);
    assert Pow256(8 - k) == 256 * Pow256(7 - k);
  }

  /** Adding 2^64 does not change bits 8k .. 8k + 7 of a number, for k < 8. */
  lemma ShiftedByTwo64(v: int, k: nat)
    requires k < 8 && v + TWO_64 >= 0
    ensures ((v + TWO_64) / Pow256(k)) % 256 == (v / Pow256(k)) % 256
  {
    var p, m := Pow256(k), Pow256(7 - k);
    Two64Split(k);
    DivAddMultiple(v, 256 * m, p);
    var x := v / p;
    assert x + 256 * m == (x / 256 + m) * 256 + x % 256;
    DivUnique(x + 256 * m, 256, x / 256 + m, x % 256);
  }
}
