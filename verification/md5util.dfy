/** `MD5Util`: upper-case hexadecimal rendering of bytes, and the MD5 helpers built on it.
    The digest is a parameter (`None` stands for the exception `MessageDigest` may throw);
    Java `null` is `None` for arrays and strings. */
module Md5Util {
  import opened Results
  import opened ByteCodec

  /** A Java `byte[]`: its length is an `int`. */
  type ByteArray = b: seq<byte> | |b| <= INT_MAX

  /** The MD5 primitive: the digest of the bytes, or `None` when it throws. */
  type Digest = seq<byte> -> Option<ByteArray>

  /** `HEX_DIGITS`: the sixteen upper-case hexadecimal digits in value order. */
  const HEX_DIGITS: string := "0123456789ABCDEF"

  /** A character the encoder can emit. */
  predicate IsHexDigit(c: char)
  {
    '0' <= c <= '9' || 'A' <= c <= 'F'
  }

  /** The value of a digit the encoder emits. */
  function DigitValue(c: char): (r: nat)
    requires IsHexDigit(c)
    ensures r < 16 && HEX_DIGITS[r] == c
  {
    if c <= '9' then c as int - '0' as int else c as int - 'A' as int + 10
  }

  /** Every digit stands for the value of its position. */
  lemma DigitsDecode(n: nat)
    requires n < 16
    ensures IsHexDigit(HEX_DIGITS[n]) && DigitValue(HEX_DIGITS[n]) == n
  {
  }

  /** What `toHexString` appends: each byte as the digit of its high nibble then of its low
      nibble. `(value & 0xf0) >>> 4` of a sign-extended byte is its unsigned high nibble, so
      the signedness of Java's `byte` does not show. */
  function Hex(b: seq<byte>): (r: string)
    ensures |r| == 2 * |b|
    ensures forall i :: 0 <= i < |b| ==> r[2 * i] == HEX_DIGITS[b[i] / 16] && r[2 * i + 1] == HEX_DIGITS[b[i] % 16]
  {
    if |b| == 0 then ""
    else
      var init := Hex(b[..|b| - 1]);
      var last := b[|b| - 1];
      var r := init + [HEX_DIGITS[last / 16], HEX_DIGITS[last % 16]];
      assert forall i :: 0 <= i < |b| - 1 ==> r[2 * i] == init[2 * i] && r[2 * i + 1] == init[2 * i + 1];
      r
  }

  /** Only upper-case hexadecimal digits come out. */
  lemma HexIsUpperHex(b: seq<byte>)
    ensures forall k :: 0 <= k < |Hex(b)| ==> IsHexDigit(Hex(b)[k])
  {
    var r := Hex(b);
    forall k | 0 <= k < |r|
      ensures IsHexDigit(r[k])
    {
      var i := k / 2;
      assert k == 2 * i || k == 2 * i + 1;
      DigitsDecode(b[i] / 16);
      DigitsDecode(b[i] % 16);
    }
  }

  /** `toHexString(b)`: the builder's initial capacity `b.length * 2` is an `int` product;
      from 2^30 bytes on it wraps negative and the constructor throws
      NegativeArraySizeException (`None`). Otherwise the digits of `Hex`. */
  function ToHexString(b: ByteArray): (r: Option<string>)
    ensures r.Some? <==> |b| < 0x4000_0000
    ensures r.Some? ==> |r.value| == 2 * |b| && FromHexString(r.value) == Some(b)
  {
    WrapIntOfNonNegativeSum(|b|, |b|);
    HexRoundTrip(b);
    if WrapInt(|b| * 2) < 0 then None else Some(Hex(b))
  }

  /** The reference decoder: an even number of upper-case digits, two per byte. */
  function FromHexString(s: string): (r: Option<seq<byte>>)
    ensures r.Some? ==> 2 * |r.value| == |s|
    decreases |s|
  {
    if |s| == 0 then Some([])
    else if |s| == 1 || !IsHexDigit(s[0]) || !IsHexDigit(s[1]) then None
    else
      match FromHexString(s[2..])
      case None => None
      case Some(rest) => Some([DigitValue(s[0]) * 16 + DigitValue(s[1])] + rest)
  }

  /** A byte's rendering leads the rendering of the bytes it heads. */
  lemma HexCons(x: byte, tail: seq<byte>)
    ensures Hex([x] + tail) == [HEX_DIGITS[x / 16], HEX_DIGITS[x % 16]] + Hex(tail)
  {
    var b := [x] + tail;
    var r := Hex(b);
    var t := Hex(tail);
    var e := [HEX_DIGITS[x / 16], HEX_DIGITS[x % 16]] + t;
    forall k | 0 <= k < |r|
      ensures r[k] == e[k]
    {
      var i := k / 2;
      if i > 0 {
        assert b[i] == tail[i - 1];
        assert e[k] == t[k - 2];
        if k == 2 * i {
          assert r[k] == HEX_DIGITS[b[i] / 16];
          assert t[2 * (i - 1)] == HEX_DIGITS[tail[i - 1] / 16];
        } else {
          assert k == 2 * i + 1;
          assert r[k] == HEX_DIGITS[b[i] % 16];
          assert t[2 * (i - 1) + 1] == HEX_DIGITS[tail[i - 1] % 16];
        }
      } else {
        assert b[0] == x;
        assert k == 0 || k == 1;
      }
    }
  }

  /** The two digits of a byte name its nibbles. */
  lemma Nibbles(x: byte)
    ensures x / 16 < 16 && x / 16 * 16 + x % 16 == x
  {
  }

  /** Two digits naming a byte, ahead of a decodable rest, decode to that byte ahead of
      the rest's bytes. */
  lemma DecodeStep(s: string, x: byte, tail: seq<byte>)
    requires |s| >= 2 && s[0] == HEX_DIGITS[x / 16] && s[1] == HEX_DIGITS[x % 16]
    requires FromHexString(s[2..]) == Some(tail)
    ensures FromHexString(s) == Some([x] + tail)
  {
    DigitsDecode(x / 16);
    DigitsDecode(x % 16);
    Nibbles(x);
  }

  /** Encoding then decoding gives the bytes back. */
  lemma {:induction false} HexRoundTrip(b: seq<byte>)
    ensures FromHexString(Hex(b)) == Some(b)
    decreases |b|
  {
    if |b| > 0 {
      var tail := b[1..];
      assert b == [b[0]] + tail;
      HexCons(b[0], tail);
      HexRoundTrip(tail);
      var s := Hex(b);
      assert s[2..] == Hex(tail);
      DecodeStep(s, b[0], tail);
    }
  }

  /** Decoding then encoding gives the string back: the encoder's image is exactly the
      even-length upper-case hexadecimal strings. */
  lemma {:induction false} HexStringsAreEncodings(s: string)
    requires FromHexString(s).Some?
    ensures Hex(FromHexString(s).value) == s
    decreases |s|
  {
    if |s| > 0 {
      var hi := DigitValue(s[0]);
      var lo := DigitValue(s[1]);
      var x: byte := hi * 16 + lo;
      var tail := FromHexString(s[2..]).value;
      assert FromHexString(s).value == [x] + tail;
      HexStringsAreEncodings(s[2..]);
      HexCons(x, tail);
      assert x / 16 == hi && x % 16 == lo;
      assert s == [s[0], s[1]] + s[2..];
    }
  }

  /** Different bytes never render alike. */
  lemma HexInjective(a: seq<byte>, b: seq<byte>)
    requires Hex(a) == Hex(b)
    ensures a == b
  {
    HexRoundTrip(a);
    HexRoundTrip(b);
  }

  /** `bytesEmpty(bytes)`. */
  function BytesEmpty(bytes: Option<seq<byte>>): (r: bool)
    ensures r <==> bytes == None || bytes == Some([])
  {
    bytes.None? || |bytes.value| == 0
  }

  /** `isEmpty(str)`. */
  function IsEmpty(str: Option<string>): (r: bool)
    ensures r <==> str == None || str == Some("")
  {
    str.None? || |str.value| == 0
  }

  /** `encoding(byte[])`: the empty string for a null or empty array, otherwise the hex of
      the digest; null when the digest or the rendering throws, as `catch (Exception e)`
      catches both. */
  function Encoding(bs: Option<seq<byte>>, md5: Digest): (r: Option<string>)
    ensures BytesEmpty(bs) ==> r == Some("")
    ensures !BytesEmpty(bs) ==> (r.Some? <==> md5(bs.value).Some? && |md5(bs.value).value| < 0x4000_0000)
    ensures !BytesEmpty(bs) && r.Some? ==> FromHexString(r.value) == Some(md5(bs.value).value)
  {
    if BytesEmpty(bs) then Some("")
    else
      match md5(bs.value)
      case None => None
      case Some(digest) => ToHexString(digest)
  }

  /** A null or empty array never reaches the digest: any two digests agree on it. */
  lemma EmptyBytesSkipDigest(bs: Option<seq<byte>>, md5: Digest, other: Digest)
    requires BytesEmpty(bs)
    ensures Encoding(bs, md5) == Encoding(bs, other)
  {
  }

  /** `String.getBytes(UTF_8)` of one character, by its scalar value. */
  function Utf8Char(c: char): (r: seq<byte>)
    ensures 1 <= |r| <= 4
    ensures (c as int < 0x80) <==> r == [c as int]
  {
    var cp := c as int;
    if cp < 0x80 then [cp]
    else if cp < 0x800 then [0xC0 + cp / 0x40, 0x80 + cp % 0x40]
    else if cp < 0x1_0000 then [0xE0 + cp / 0x1000, 0x80 + cp / 0x40 % 0x40, 0x80 + cp % 0x40]
    else [0xF0 + cp / 0x4_0000, 0x80 + cp / 0x1000 % 0x40, 0x80 + cp / 0x40 % 0x40, 0x80 + cp % 0x40]
  }

  /** `String.getBytes(UTF_8)`. */
  function Utf8(s: string): (r: seq<byte>)
    ensures |s| <= |r| <= 4 * |s|
  {
    if |s| == 0 then [] else Utf8(s[..|s| - 1]) + Utf8Char(s[|s| - 1])
  }

  /** A string of ASCII characters encodes to its character codes, one byte each. */
  lemma {:induction false} Utf8OfAscii(s: string)
    requires forall k :: 0 <= k < |s| ==> s[k] as int < 0x80
    ensures |Utf8(s)| == |s|
    ensures forall k :: 0 <= k < |s| ==> Utf8(s)[k] == s[k] as int
  {
    if |s| > 0 {
      Utf8OfAscii(s[..|s| - 1]);
    }
  }

  /** `encoding(String)`: null for a null or empty string, otherwise `encoding` of its UTF-8
      bytes, which then reaches the digest. */
  function EncodingString(text: Option<string>, md5: Digest): (r: Option<string>)
    ensures IsEmpty(text) ==> r == None
    ensures !IsEmpty(text) ==> (r.Some? <==> md5(Utf8(text.value)).Some? && |md5(Utf8(text.value)).value| < 0x4000_0000)
    ensures !IsEmpty(text) && r.Some? ==> FromHexString(r.value) == Some(md5(Utf8(text.value)).value)
  {
    if IsEmpty(text) then None
    else Encoding(Some(Utf8(text.value)), md5)
  }

  /** `encodeTwice(text)`: null for a null or empty string; otherwise the first hex digest
      and, when there is one, the hex digest of its UTF-8 bytes. */
  function EncodeTwice(text: Option<string>, md5: Digest): (r: Option<string>)
    ensures IsEmpty(text) ==> r == None
    ensures r.Some? ==> md5(Utf8(text.value)).Some?
  {
    if IsEmpty(text) then None
    else
      var once := Encoding(Some(Utf8(text.value)), md5);
      if once.Some? then Encoding(Some(Utf8(once.value)), md5) else None
  }

  /** Whenever the first digest gives a non-empty rendering, `encodeTwice` is `encoding`
      applied to the result of `encoding`. */
  lemma EncodeTwiceIsEncodingTwice(text: Option<string>, md5: Digest)
    requires EncodingString(text, md5).Some? && EncodingString(text, md5).value != ""
    ensures EncodeTwice(text, md5) == EncodingString(EncodingString(text, md5), md5)
  {
  }

  /** With a digest that yields 16 bytes, `encodeTwice` is 32 upper-case hex digits: the
      digest of the ASCII codes of the first 32-digit rendering. */
  lemma EncodeTwiceOfMd5(text: Option<string>, md5: Digest)
    requires !IsEmpty(text)
    requires forall bytes: seq<byte> :: md5(bytes).Some? && |md5(bytes).value| == 16
    ensures var once := Hex(md5(Utf8(text.value)).value);
      && |once| == 32
      && Utf8(once) == seq(32, k requires 0 <= k < 32 => once[k] as int)
      && EncodeTwice(text, md5) == Some(Hex(md5(Utf8(once)).value))
      && |EncodeTwice(text, md5).value| == 32
  {
    var once := Hex(md5(Utf8(text.value)).value);
    HexIsUpperHex(md5(Utf8(text.value)).value);
    Utf8OfAscii(once);
  }
}
