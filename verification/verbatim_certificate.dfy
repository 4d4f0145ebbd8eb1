/** `VerbatimX509Certificate`: a decoded certificate that answers `getEncoded` with the
    exact bytes it was decoded from, and whose equality and hash are those of these bytes.
    The proof-of-rotation verifier keeps such certificates in a hash set, so two levels
    carrying byte-identical certificates collide there whatever the decoder made of them. */
module VerbatimCertificate {
  import opened ByteCodec

  /** A public key, by its encoding. */
  datatype PublicKey = PublicKey(encoded: seq<byte>)

  /** What a certificate factory returns: the key, and the factory's own re-encoding,
      which may differ from the bytes that were decoded. */
  datatype X509Certificate = X509Certificate(publicKey: PublicKey, encoded: seq<byte>)

  datatype VerbatimX509Certificate = VerbatimX509Certificate(wrapped: X509Certificate, encodedVerbatim: seq<byte>)

  /** An argument of `equals(Object)`: null, a verbatim certificate, or any other object
      (told apart by an identity). */
  datatype JavaObject = Null | VerbatimObject(cert: VerbatimX509Certificate) | OtherObject(identity: int)

  /** `getEncoded()`. */
  function GetEncoded(cert: VerbatimX509Certificate): seq<byte>
  {
    cert.encodedVerbatim
  }

  /** `getPublicKey()`, delegated to the wrapped certificate. */
  function GetPublicKey(cert: VerbatimX509Certificate): PublicKey
  {
    cert.wrapped.publicKey
  }

  /** `new VerbatimX509Certificate(wrapped, encodedVerbatim)`: the encoding it reports is
      the one it was given, not the wrapped certificate's, and its key is the wrapped one. */
  function NewVerbatim(wrapped: X509Certificate, encodedVerbatim: seq<byte>): (r: VerbatimX509Certificate)
    ensures GetEncoded(r) == encodedVerbatim
    ensures GetPublicKey(r) == wrapped.publicKey
  {
    VerbatimX509Certificate(wrapped, encodedVerbatim)
  }

  /** `Arrays.equals(byte[], byte[])` on non-null arrays: equal lengths, then element by
      element. */
  function ArraysEquals(a: seq<byte>, b: seq<byte>): (r: bool)
    ensures r <==> a == b
  {
    |a| == |b| && ElementsEqualFrom(a, b, 0)
  }

  /** The element comparison of `Arrays.equals`, from index `i` on. */
  function ElementsEqualFrom(a: seq<byte>, b: seq<byte>, i: nat): (r: bool)
    requires |a| == |b| && i <= |a|
    ensures r <==> a[i..] == b[i..]
    decreases |a| - i
  {
    if i == |a| then true
    else if a[i] != b[i] then false
    else
      var rest := ElementsEqualFrom(a, b, i + 1);
      assert a[i..] == [a[i]] + a[i + 1..];
      assert b[i..] == [b[i]] + b[i + 1..];
      rest
  }

  /** `equals(Object)`: the same object, or another verbatim certificate with the same
      encoded bytes. */
  function Equals(self: VerbatimX509Certificate, o: JavaObject): (r: bool)
    ensures r <==> o.VerbatimObject? && GetEncoded(o.cert) == GetEncoded(self)
  {
    if o == VerbatimObject(self) then true
    else if !o.VerbatimObject? then false
    else ArraysEquals(GetEncoded(self), GetEncoded(o.cert))
  }

  /** `equals` is an equivalence on verbatim certificates, blind to the wrapped
      certificate. */
  lemma EqualsIsEquivalence(a: VerbatimX509Certificate, b: VerbatimX509Certificate, c: VerbatimX509Certificate)
    ensures Equals(a, VerbatimObject(a))
    ensures Equals(a, VerbatimObject(b)) ==> Equals(b, VerbatimObject(a))
    ensures Equals(a, VerbatimObject(b)) && Equals(b, VerbatimObject(c)) ==> Equals(a, VerbatimObject(c))
    ensures !Equals(a, Null)
  {
  }

  /** `Arrays.hashCode(byte[])` on a non-null array: start from 1 and fold each signed byte
      in as `31 * result + b`, in wrapping `int` arithmetic. */
  function ArraysHashCode(bytes: seq<byte>): Int32
  {
    if |bytes| == 0 then 1
    else WrapInt(31 * ArraysHashCode(bytes[..|bytes| - 1]) + SignedByte(bytes[|bytes| - 1]))
  }

  /** The same polynomial over unbounded integers. */
  function PolynomialHash(bytes: seq<byte>): int
  {
    if |bytes| == 0 then 1
    else 31 * PolynomialHash(bytes[..|bytes| - 1]) + SignedByte(bytes[|bytes| - 1])
  }

  /** Integers that agree modulo 2^32 wrap to the same Java `int`. */
  lemma WrapIntCongruent(x: int, y: int)
    requires (x - y) % TWO_32 == 0
    ensures WrapInt(x) == WrapInt(y)
  {
    var a := WrapInt(x);
    var b := WrapInt(y);
    var i := (a - x) / TWO_32;
    var j := (x - y) / TWO_32;
    var k := (b - y) / TWO_32;
    assert a - x == i * TWO_32;
    assert x - y == j * TWO_32;
    assert b - y == k * TWO_32;
    assert a - b == (i + j - k) * TWO_32;
  }

  /** One folding step keeps two congruent hashes congruent. */
  lemma StepCongruent(h: int, p: int, b: int)
    requires (h - p) % TWO_32 == 0
    ensures (31 * h + b - (31 * p + b)) % TWO_32 == 0
  {
    var j := (h - p) / TWO_32;
    assert h - p == j * TWO_32;
    assert 31 * h + b - (31 * p + b) == (31 * j) * TWO_32;
  }

  /** Wrapping at every step gives the unbounded polynomial reduced once into `int` range. */
  lemma {:induction false} HashCodeIsWrappedPolynomial(bytes: seq<byte>)
    ensures ArraysHashCode(bytes) == WrapInt(PolynomialHash(bytes))
  {
    if |bytes| > 0 {
      var init := bytes[..|bytes| - 1];
      var b := SignedByte(bytes[|bytes| - 1]);
      HashCodeIsWrappedPolynomial(init);
      var h := ArraysHashCode(init);
      var p := PolynomialHash(init);
      assert (h - p) % TWO_32 == 0;
      StepCongruent(h, p, b);
      WrapIntCongruent(31 * h + b, 31 * p + b);
    }
  }

  /** The `mHash` field: `-1` until the hash has been computed. */
  const NO_HASH: Int32 := -1

  /** A value of `mHash` that `hashCode` can have left behind: the sentinel or the hash. */
  predicate CacheValid(cert: VerbatimX509Certificate, cache: Int32)
  {
    cache == NO_HASH || cache == ArraysHashCode(GetEncoded(cert))
  }

  /** `hashCode()` with its cache: the hash of the encoded bytes, computed on the first call
      (and again on any call while it reads as the sentinel); returns the hash and the
      field's new value. */
  function HashCode(cert: VerbatimX509Certificate, cache: Int32): (r: (Int32, Int32))
    requires CacheValid(cert, cache)
    ensures r.0 == WrapInt(PolynomialHash(GetEncoded(cert)))
    ensures CacheValid(cert, r.1)
  {
    HashCodeIsWrappedPolynomial(GetEncoded(cert));
    if cache == NO_HASH then
      var h := ArraysHashCode(GetEncoded(cert));
      (h, h)
    else (cache, cache)
  }

  /** The `equals`/`hashCode` contract: equal certificates hash alike, whatever their caches
      hold and whatever certificates they wrap. */
  lemma EqualCertificatesHashAlike(a: VerbatimX509Certificate, cacheA: Int32,
                                   b: VerbatimX509Certificate, cacheB: Int32)
    requires CacheValid(a, cacheA) && CacheValid(b, cacheB)
    requires Equals(a, VerbatimObject(b))
    ensures HashCode(a, cacheA).0 == HashCode(b, cacheB).0
  {
  }

  /** Calling `hashCode` again, with the field the first call left, gives the same hash. */
  lemma HashCodeStable(cert: VerbatimX509Certificate, cache: Int32)
    requires CacheValid(cert, cache)
    ensures HashCode(cert, HashCode(cert, cache).1).0 == HashCode(cert, cache).0
  {
  }
}
