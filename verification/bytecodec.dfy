/** Fixed-width integers as Java sees them (two's-complement int and long), and their
    little- and big-endian byte encodings. */
module ByteCodec {

  /** An octet, as an unsigned value. Java's `byte` is the signed reading of the same
      eight bits; see `SignedByte`. */
  type byte = x: int | 0 <= x < 256

  /** The value Java sees when it widens a `byte` to `int`. */
  function SignedByte(b: byte): (r: int)
    ensures -128 <= r < 128
    ensures (r - b) % 256 == 0
  {
    if b < 128 then b else b - 256
  }

  /** A slice of a slice is a slice of the original. */
  lemma SliceOfSlice<T>(s: seq<T>, a: nat, c: nat, i: nat, j: nat)
    requires a <= c <= |s| && i <= j <= c - a
    ensures s[a..c][i..j] == s[a + i..a + j]
    ensures s[a..c][i..] == s[a + i..c]
  {
    var t := s[a..c];
    assert forall k | 0 <= k < j - i :: t[i..j][k] == s[a + i..a + j][k];
    assert forall k | 0 <= k < c - a - i :: t[i..][k] == s[a + i..c][k];
  }

  /** A prefix cut into four adjacent pieces. */
  lemma FourPieces<T>(s: seq<T>, a: nat, b: nat, c: nat, d: nat)
    requires a <= b <= c <= d <= |s|
    ensures s[..d] == s[0..a] + s[a..b] + s[b..c] + s[c..d]
  {
    assert s[..b] == s[0..a] + s[a..b];
    assert s[..c] == s[..b] + s[b..c];
    assert s[..d] == s[..c] + s[c..d];
  }

  const TWO_32: int := 0x1_0000_0000
  const TWO_64: int := 0x1_0000_0000_0000_0000
  const INT_MIN: int := -0x8000_0000
  const INT_MAX: int := 0x7fff_ffff
  const LONG_MIN: int := -0x8000_0000_0000_0000
  const LONG_MAX: int := 0x7fff_ffff_ffff_ffff

  /** A Java `int`. */
  type Int32 = x: int | -0x8000_0000 <= x <= 0x7fff_ffff

  /** A Java `long`. */
  type Int64 = x: int | -0x8000_0000_0000_0000 <= x <= 0x7fff_ffff_ffff_ffff

  /** An unsigned 32-bit field as ZIP stores it (Java widens it to a `long`). */
  type UInt32 = x: int | 0 <= x < 0x1_0000_0000

  /** Java `int` arithmetic: the result of an addition or multiplication wrapped to 32 bits. */
  function WrapInt(x: int): (r: Int32)
    ensures (r - x) % TWO_32 == 0
    ensures INT_MIN <= x <= INT_MAX ==> r == x
  {
    var m := x % TWO_32;
    if m > INT_MAX then m - TWO_32 else m
  }

  /** Java `long` arithmetic: the result wrapped to 64 bits. */
  function WrapLong(x: int): (r: Int64)
    ensures (r - x) % TWO_64 == 0
    ensures LONG_MIN <= x <= LONG_MAX ==> r == x
  {
    var m := x % TWO_64;
    if m > LONG_MAX then m - TWO_64 else m
  }

  /** Two non-negative Java ints add up to a non-negative int unless the sum overflows,
      in which case Java's result is negative. */
  lemma WrapIntOfNonNegativeSum(a: nat, b: nat)
    requires a <= INT_MAX && b <= INT_MAX
    ensures a + b <= INT_MAX ==> WrapInt(a + b) == a + b
    ensures a + b > INT_MAX ==> WrapInt(a + b) == a + b - TWO_32 < 0
  {
  }

  function Pow256(k: nat): (r: nat)
    ensures r > 0
  {
    if k == 0 then 1 else 256 * Pow256(k - 1)
  }

  /** Unsigned little-endian value of a byte sequence. */
  function LE(s: seq<byte>): nat
  {
    if |s| == 0 then 0 else s[0] + 256 * LE(s[1..])
  }

  lemma {:induction false} LEBound(s: seq<byte>)
    ensures LE(s) < Pow256(|s|)
  {
    if |s| > 0 {
      LEBound(s[1..]);
    }
  }

  /** The `k`-byte little-endian encoding of `n` (the low `k` bytes when `n` is larger). */
  function EncodeLE(n: nat, k: nat): (r: seq<byte>)
    ensures |r| == k
  {
    if k == 0 then [] else [n % 256] + EncodeLE(n / 256, k - 1)
  }

  lemma {:induction false} LEOfEncodeLE(n: nat, k: nat)
    requires n < Pow256(k)
    ensures LE(EncodeLE(n, k)) == n
  {
    if k > 0 {
      var r := EncodeLE(n, k);
      var q, m := n / 256, n % 256;
      DivBound(n, Pow256(k - 1));
      assert r[1..] == EncodeLE(q, k - 1);
      LEOfEncodeLE(q, k - 1);
      assert r[0] == m;
      assert LE(r) == r[0] + 256 * LE(r[1..]);
    }
  }

  lemma DivBound(n: nat, p: nat)
    requires n < 256 * p
    ensures n / 256 < p
    ensures n == 256 * (n / 256) + n % 256
  {
  }

  lemma {:induction false} EncodeLEOfLE(s: seq<byte>)
    ensures EncodeLE(LE(s), |s|) == s
  {
    if |s| > 0 {
      var n := LE(s);
      assert n % 256 == s[0];
      assert n / 256 == LE(s[1..]);
      EncodeLEOfLE(s[1..]);
    }
  }

  /** Equal-length byte sequences with the same little-endian value are equal. */
  lemma LEInjective(a: seq<byte>, b: seq<byte>)
    requires |a| == |b|
    requires LE(a) == LE(b)
    ensures a == b
  {
    EncodeLEOfLE(a);
    EncodeLEOfLE(b);
  }

  datatype ByteOrder = BigEndian | LittleEndian

  /** Unsigned big-endian value of a byte sequence. */
  function BE(s: seq<byte>): nat
  {
    if |s| == 0 then 0 else 256 * BE(s[..|s| - 1]) + s[|s| - 1]
  }

  lemma {:induction false} BEBound(s: seq<byte>)
    ensures BE(s) < Pow256(|s|)
  {
    if |s| > 0 {
      BEBound(s[..|s| - 1]);
    }
  }

  /** The `k`-byte big-endian encoding of `n` (the low `k` bytes when `n` is larger). */
  function EncodeBE(n: nat, k: nat): (r: seq<byte>)
    ensures |r| == k
  {
    if k == 0 then [] else EncodeBE(n / 256, k - 1) + [n % 256]
  }

  lemma {:induction false} BEOfEncodeBE(n: nat, k: nat)
    requires n < Pow256(k)
    ensures BE(EncodeBE(n, k)) == n
  {
    if k > 0 {
      var r := EncodeBE(n, k);
      var q, m := n / 256, n % 256;
      DivBound(n, Pow256(k - 1));
      assert r[..k - 1] == EncodeBE(q, k - 1);
      BEOfEncodeBE(q, k - 1);
      assert r[k - 1] == m;
      assert BE(r) == 256 * BE(r[..k - 1]) + r[k - 1];
    }
  }

  lemma {:induction false} EncodeBEOfBE(s: seq<byte>)
    ensures EncodeBE(BE(s), |s|) == s
  {
    if |s| > 0 {
      var n := BE(s);
      var init := s[..|s| - 1];
      assert n % 256 == s[|s| - 1];
      assert n / 256 == BE(init);
      EncodeBEOfBE(init);
      assert s == init + [s[|s| - 1]];
    }
  }

  /** Unsigned value of `s` read in byte order `order`. */
  function Unsigned(s: seq<byte>, order: ByteOrder): (r: nat)
    ensures r < Pow256(|s|)
  {
    LEBound(s);
    BEBound(s);
    if order == LittleEndian then LE(s) else BE(s)
  }

  /** The `k`-byte encoding of the unsigned value `n` in byte order `order`. */
  function EncodeUnsigned(n: nat, k: nat, order: ByteOrder): (r: seq<byte>)
    ensures |r| == k
  {
    if order == LittleEndian then EncodeLE(n, k) else EncodeBE(n, k)
  }

  lemma UnsignedOfEncode(n: nat, k: nat, order: ByteOrder)
    requires n < Pow256(k)
    ensures Unsigned(EncodeUnsigned(n, k, order), order) == n
  {
    if order == LittleEndian {
      LEOfEncodeLE(n, k);
    } else {
      BEOfEncodeBE(n, k);
    }
  }

  /** Two's-complement reading of a 32-bit unsigned value. */
  function ToInt32(u: nat): (r: Int32)
    requires u < TWO_32
    ensures r == u || r == u - TWO_32
    ensures r >= 0 <==> u <= INT_MAX
  {
    if u <= INT_MAX then u else u - TWO_32
  }

  /** The 32-bit pattern of a Java int. */
  function FromInt32(x: Int32): (u: nat)
    ensures u < TWO_32
    ensures ToInt32(u) == x
  {
    if x >= 0 then x else x + TWO_32
  }

  /** Two's-complement reading of a 64-bit unsigned value. */
  function ToInt64(u: nat): (r: Int64)
    requires u < TWO_64
    ensures r == u || r == u - TWO_64
    ensures r >= 0 <==> u <= LONG_MAX
  {
    if u <= LONG_MAX then u else u - TWO_64
  }

  /** The 64-bit pattern of a Java long. */
  function FromInt64(x: Int64): (u: nat)
    ensures u < TWO_64
    ensures ToInt64(u) == x
  {
    if x >= 0 then x else x + TWO_64
  }

  /** `ByteBuffer.getInt` on four bytes in byte order `order`. */
  function DecodeInt(s: seq<byte>, order: ByteOrder): Int32
    requires |s| == 4
  {
    assert Pow256(4) == TWO_32;
    ToInt32(Unsigned(s, order))
  }

  /** `ByteBuffer.getLong` on eight bytes in byte order `order`. */
  function DecodeLong(s: seq<byte>, order: ByteOrder): Int64
    requires |s| == 8
  {
    assert Pow256(8) == TWO_64;
    ToInt64(Unsigned(s, order))
  }

  /** `ByteBuffer.putInt`: the four bytes that `DecodeInt` reads back as `x`. */
  function EncodeInt(x: Int32, order: ByteOrder): (r: seq<byte>)
    ensures |r| == 4
    ensures DecodeInt(r, order) == x
  {
    UnsignedOfEncode(FromInt32(x), 4, order);
    EncodeUnsigned(FromInt32(x), 4, order)
  }

  /** `ByteBuffer.putLong`: the eight bytes that `DecodeLong` reads back as `x`. */
  function EncodeLong(x: Int64, order: ByteOrder): (r: seq<byte>)
    ensures |r| == 8
    ensures DecodeLong(r, order) == x
  {
    UnsignedOfEncode(FromInt64(x), 8, order);
    EncodeUnsigned(FromInt64(x), 8, order)
  }

  /** Little-endian `long` values read from a plain byte array at absolute offset `i`. */
  function LongAt(s: seq<byte>, i: nat): Int64
    requires i + 8 <= |s|
  {
    DecodeLong(s[i..i + 8], LittleEndian)
  }

  /** A Java `long` read little-endian equals a non-negative value exactly when the bytes
      are that value's unsigned encoding. */
  lemma LongAtNonNegative(s: seq<byte>, i: nat, v: nat)
    requires i + 8 <= |s|
    requires v <= LONG_MAX
    ensures LongAt(s, i) == v <==> s[i..i + 8] == EncodeLE(v, 8)
  {
    var w := s[i..i + 8];
    LEBound(w);
    if LongAt(s, i) == v {
      EncodeLEOfLE(w);
    }
    if w == EncodeLE(v, 8) {
      assert Pow256(8) == TWO_64;
      LEOfEncodeLE(v, 8);
    }
  }

  lemma UnsignedInjective(a: seq<byte>, b: seq<byte>, order: ByteOrder)
    requires |a| == |b|
    requires Unsigned(a, order) == Unsigned(b, order)
    ensures a == b
  {
    if order == LittleEndian {
      LEInjective(a, b);
    } else {
      EncodeBEOfBE(a);
      EncodeBEOfBE(b);
    }
  }

  /** Four bytes are determined by the `int` read from them. */
  lemma DecodeIntInjective(a: seq<byte>, b: seq<byte>, order: ByteOrder)
    requires |a| == 4 && |b| == 4
    requires DecodeInt(a, order) == DecodeInt(b, order)
    ensures a == b
  {
    UnsignedInjective(a, b, order);
  }

  /** Eight bytes are determined by the `long` read from them. */
  lemma DecodeLongInjective(a: seq<byte>, b: seq<byte>, order: ByteOrder)
    requires |a| == 8 && |b| == 8
    requires DecodeLong(a, order) == DecodeLong(b, order)
    ensures a == b
  {
    UnsignedInjective(a, b, order);
  }
}
