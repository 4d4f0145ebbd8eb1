/** The algorithm tables of the signing-block utilities: the signature algorithm ids a
    scheme block may carry, the content digest each one uses, the JCA names a verifier
    needs, and the order in which a verifier prefers content digests. */
module Algorithms {
  import opened Results
  import opened ByteCodec

  const CONTENT_DIGEST_CHUNKED_SHA256: Int32 := 1
  const CONTENT_DIGEST_CHUNKED_SHA512: Int32 := 2
  const CONTENT_DIGEST_VERITY_CHUNKED_SHA256: Int32 := 3
  /** Declared next to the chunked digests, but neither produced nor ranked by the tables. */
  const CONTENT_DIGEST_SHA256: Int32 := 4

  const SIGNATURE_RSA_PSS_WITH_SHA256: Int32 := 0x0101
  const SIGNATURE_RSA_PSS_WITH_SHA512: Int32 := 0x0102
  const SIGNATURE_RSA_PKCS1_V1_5_WITH_SHA256: Int32 := 0x0103
  const SIGNATURE_RSA_PKCS1_V1_5_WITH_SHA512: Int32 := 0x0104
  const SIGNATURE_ECDSA_WITH_SHA256: Int32 := 0x0201
  const SIGNATURE_ECDSA_WITH_SHA512: Int32 := 0x0202
  const SIGNATURE_DSA_WITH_SHA256: Int32 := 0x0301
  const SIGNATURE_VERITY_RSA_PKCS1_V1_5_WITH_SHA256: Int32 := 0x0421
  const SIGNATURE_VERITY_ECDSA_WITH_SHA256: Int32 := 0x0423
  const SIGNATURE_VERITY_DSA_WITH_SHA256: Int32 := 0x0425

  /** The ten signature algorithm ids, in declaration order. */
  const SIGNATURE_ALGORITHMS: seq<Int32> := [
    SIGNATURE_RSA_PSS_WITH_SHA256, SIGNATURE_RSA_PSS_WITH_SHA512,
    SIGNATURE_RSA_PKCS1_V1_5_WITH_SHA256, SIGNATURE_RSA_PKCS1_V1_5_WITH_SHA512,
    SIGNATURE_ECDSA_WITH_SHA256, SIGNATURE_ECDSA_WITH_SHA512, SIGNATURE_DSA_WITH_SHA256,
    SIGNATURE_VERITY_RSA_PKCS1_V1_5_WITH_SHA256, SIGNATURE_VERITY_ECDSA_WITH_SHA256,
    SIGNATURE_VERITY_DSA_WITH_SHA256]

  /** `isSupportedSignatureAlgorithm`. */
  predicate IsSupportedSignatureAlgorithm(sigAlgorithm: Int32)
  {
    match sigAlgorithm
    case 0x0101 => true
    case 0x0102 => true
    case 0x0103 => true
    case 0x0104 => true
    case 0x0201 => true
    case 0x0202 => true
    case 0x0301 => true
    case 0x0421 => true
    case 0x0423 => true
    case 0x0425 => true
    case _ => false
  }

  /** The supported ids are exactly the ten declared ones. */
  lemma SupportedAreDeclared(sigAlgorithm: Int32)
    ensures IsSupportedSignatureAlgorithm(sigAlgorithm) <==> sigAlgorithm in SIGNATURE_ALGORITHMS
  {
  }

  function UnknownSignature(sigAlgorithm: Int32): Error
  {
    IllegalArgument(UnknownSignatureAlgorithm(sigAlgorithm))
  }

  /** `getSignatureAlgorithmContentDigestAlgorithm`. */
  function ContentDigestAlgorithm(sigAlgorithm: Int32): (r: Result<Int32>)
    ensures r.Ok? <==> IsSupportedSignatureAlgorithm(sigAlgorithm)
    ensures r.Err? ==> r.error == UnknownSignature(sigAlgorithm)
    ensures r.Ok? ==> r.value in {CONTENT_DIGEST_CHUNKED_SHA256, CONTENT_DIGEST_CHUNKED_SHA512,
                                  CONTENT_DIGEST_VERITY_CHUNKED_SHA256}
    ensures r == Ok(CONTENT_DIGEST_VERITY_CHUNKED_SHA256)
      <==> IsSupportedSignatureAlgorithm(sigAlgorithm) && sigAlgorithm / 0x100 == 4
  {
    match sigAlgorithm
    case 0x0101 => Ok(CONTENT_DIGEST_CHUNKED_SHA256)
    case 0x0103 => Ok(CONTENT_DIGEST_CHUNKED_SHA256)
    case 0x0201 => Ok(CONTENT_DIGEST_CHUNKED_SHA256)
    case 0x0301 => Ok(CONTENT_DIGEST_CHUNKED_SHA256)
    case 0x0102 => Ok(CONTENT_DIGEST_CHUNKED_SHA512)
    case 0x0104 => Ok(CONTENT_DIGEST_CHUNKED_SHA512)
    case 0x0202 => Ok(CONTENT_DIGEST_CHUNKED_SHA512)
    case 0x0421 => Ok(CONTENT_DIGEST_VERITY_CHUNKED_SHA256)
    case 0x0423 => Ok(CONTENT_DIGEST_VERITY_CHUNKED_SHA256)
    case 0x0425 => Ok(CONTENT_DIGEST_VERITY_CHUNKED_SHA256)
    case _ => Err(UnknownSignature(sigAlgorithm))
  }

  /** `getSignatureAlgorithmJcaKeyAlgorithm`. */
  function JcaKeyAlgorithm(sigAlgorithm: Int32): (r: Result<string>)
    ensures r.Ok? <==> IsSupportedSignatureAlgorithm(sigAlgorithm)
    ensures r.Err? ==> r.error == UnknownSignature(sigAlgorithm)
    ensures r.Ok? ==> r.value in {"RSA", "EC", "DSA"}
  {
    match sigAlgorithm
    case 0x0101 => Ok("RSA")
    case 0x0102 => Ok("RSA")
    case 0x0103 => Ok("RSA")
    case 0x0104 => Ok("RSA")
    case 0x0421 => Ok("RSA")
    case 0x0201 => Ok("EC")
    case 0x0202 => Ok("EC")
    case 0x0423 => Ok("EC")
    case 0x0301 => Ok("DSA")
    case 0x0425 => Ok("DSA")
    case _ => Err(UnknownSignature(sigAlgorithm))
  }

  /** `PSSParameterSpec(mdName, "MGF1", MGF1ParameterSpec(mgfDigest), saltLen, trailer)`. */
  datatype PssParameters = PssParameters(digest: string, mgf: string, mgfDigest: string,
                                         saltLength: nat, trailerField: nat)

  /** A JCA signature algorithm name with its optional parameters. */
  datatype JcaSignature = JcaSignature(name: string, params: Option<PssParameters>)

  /** `getSignatureAlgorithmJcaSignatureAlgorithm`. */
  function JcaSignatureAlgorithm(sigAlgorithm: Int32): (r: Result<JcaSignature>)
    ensures r.Ok? <==> IsSupportedSignatureAlgorithm(sigAlgorithm)
    ensures r.Err? ==> r.error == UnknownSignature(sigAlgorithm)
    ensures r.Ok? && r.value.params.Some? <==>
      sigAlgorithm in {SIGNATURE_RSA_PSS_WITH_SHA256, SIGNATURE_RSA_PSS_WITH_SHA512}
  {
    match sigAlgorithm
    case 0x0101 => Ok(JcaSignature("SHA256withRSA/PSS", Some(PssParameters("SHA-256", "MGF1", "SHA-256", 256 / 8, 1))))
    case 0x0102 => Ok(JcaSignature("SHA512withRSA/PSS", Some(PssParameters("SHA-512", "MGF1", "SHA-512", 512 / 8, 1))))
    case 0x0103 => Ok(JcaSignature("SHA256withRSA", None))
    case 0x0421 => Ok(JcaSignature("SHA256withRSA", None))
    case 0x0104 => Ok(JcaSignature("SHA512withRSA", None))
    case 0x0201 => Ok(JcaSignature("SHA256withECDSA", None))
    case 0x0423 => Ok(JcaSignature("SHA256withECDSA", None))
    case 0x0202 => Ok(JcaSignature("SHA512withECDSA", None))
    case 0x0301 => Ok(JcaSignature("SHA256withDSA", None))
    case 0x0425 => Ok(JcaSignature("SHA256withDSA", None))
    case _ => Err(UnknownSignature(sigAlgorithm))
  }

  /** `getContentDigestAlgorithmJcaDigestAlgorithm`. */
  function JcaDigestAlgorithm(digestAlgorithm: Int32): (r: Result<string>)
    ensures r.Ok? <==> digestAlgorithm in {CONTENT_DIGEST_CHUNKED_SHA256, CONTENT_DIGEST_CHUNKED_SHA512,
                                            CONTENT_DIGEST_VERITY_CHUNKED_SHA256}
    ensures r.Err? ==> r.error == IllegalArgument(UnknownDigestAlgorithm(digestAlgorithm))
  {
    match digestAlgorithm
    case 1 => Ok("SHA-256")
    case 3 => Ok("SHA-256")
    case 2 => Ok("SHA-512")
    case _ => Err(IllegalArgument(UnknownDigestAlgorithm(digestAlgorithm)))
  }

  /** The digest named at the front of a JCA signature name ("SHA256withRSA" -> "SHA-256"). */
  function DigestOfSignatureName(name: string): string
  {
    if "SHA256" <= name then "SHA-256"
    else if "SHA512" <= name then "SHA-512"
    else ""
  }

  /** The key algorithm a JCA signature name signs with ("SHA256withECDSA" -> "EC"). */
  function KeyOfSignatureName(name: string): string
  {
    if |name| < 6 then ""
    else if "withRSA" <= name[6..] then "RSA"
    else if "withECDSA" <= name[6..] then "EC"
    else if "withDSA" <= name[6..] then "DSA"
    else ""
  }

  /** A name written as a 6-character digest, a "with..." part and a suffix is read back
      into those parts. */
  lemma ReadName(digest: string, with: string, suffix: string)
    requires |digest| == 6
    ensures digest <= digest + with + suffix
    ensures (digest + with + suffix)[6..] == with + suffix
    ensures with <= with + suffix
    ensures digest == "SHA512" ==> !("SHA256" <= digest + with + suffix)
    ensures with in {"withECDSA", "withDSA"} ==> !("withRSA" <= with + suffix)
    ensures with == "withDSA" ==> !("withECDSA" <= with + suffix)
  {
    if with in {"withECDSA", "withDSA"} {
      assert (with + suffix)[4] != "withRSA"[4];
    }
    if with == "withDSA" {
      assert (with + suffix)[4] != "withECDSA"[4];
    }
    if digest == "SHA512" {
      assert (digest + with + suffix)[3] != "SHA256"[3];
    }
    assert (digest + with + suffix)[..6] == digest;
  }

  /** The JCA signature name of every supported id hashes with the JCA digest of its
      content digest and signs with its JCA key algorithm. */
  lemma SignatureNameAgrees(sigAlgorithm: Int32)
    requires IsSupportedSignatureAlgorithm(sigAlgorithm)
    ensures var name := JcaSignatureAlgorithm(sigAlgorithm).value.name;
      && DigestOfSignatureName(name) == JcaDigestAlgorithm(ContentDigestAlgorithm(sigAlgorithm).value).value
      && KeyOfSignatureName(name) == JcaKeyAlgorithm(sigAlgorithm).value
  {
    if sigAlgorithm in {0x0101, 0x0102, 0x0103, 0x0104, 0x0421} {
      RsaNameAgrees(sigAlgorithm);
    } else {
      OtherNameAgrees(sigAlgorithm);
    }
  }

  /** `SignatureNameAgrees` for the RSA ids. */
  lemma RsaNameAgrees(sigAlgorithm: Int32)
    requires sigAlgorithm in {0x0101, 0x0102, 0x0103, 0x0104, 0x0421}
    ensures var name := JcaSignatureAlgorithm(sigAlgorithm).value.name;
      && DigestOfSignatureName(name) == JcaDigestAlgorithm(ContentDigestAlgorithm(sigAlgorithm).value).value
      && KeyOfSignatureName(name) == JcaKeyAlgorithm(sigAlgorithm).value
  {
    match sigAlgorithm
    case 0x0101 => assert "SHA256withRSA/PSS" == "SHA256" + "withRSA" + "/PSS"; ReadName("SHA256", "withRSA", "/PSS");
    case 0x0102 => assert "SHA512withRSA/PSS" == "SHA512" + "withRSA" + "/PSS"; ReadName("SHA512", "withRSA", "/PSS");
    case 0x0103 => assert "SHA256withRSA" == "SHA256" + "withRSA" + ""; ReadName("SHA256", "withRSA", "");
    case 0x0421 => assert "SHA256withRSA" == "SHA256" + "withRSA" + ""; ReadName("SHA256", "withRSA", "");
    case 0x0104 => assert "SHA512withRSA" == "SHA512" + "withRSA" + ""; ReadName("SHA512", "withRSA", "");
  }

  /** `SignatureNameAgrees` for the EC and DSA ids. */
  lemma OtherNameAgrees(sigAlgorithm: Int32)
    requires sigAlgorithm in {0x0201, 0x0202, 0x0301, 0x0423, 0x0425}
    ensures var name := JcaSignatureAlgorithm(sigAlgorithm).value.name;
      && DigestOfSignatureName(name) == JcaDigestAlgorithm(ContentDigestAlgorithm(sigAlgorithm).value).value
      && KeyOfSignatureName(name) == JcaKeyAlgorithm(sigAlgorithm).value
  {
    match sigAlgorithm
    case 0x0201 => assert "SHA256withECDSA" == "SHA256" + "withECDSA" + ""; ReadName("SHA256", "withECDSA", "");
    case 0x0423 => assert "SHA256withECDSA" == "SHA256" + "withECDSA" + ""; ReadName("SHA256", "withECDSA", "");
    case 0x0202 => assert "SHA512withECDSA" == "SHA512" + "withECDSA" + ""; ReadName("SHA512", "withECDSA", "");
    case 0x0301 => assert "SHA256withDSA" == "SHA256" + "withDSA" + ""; ReadName("SHA256", "withDSA", "");
    case 0x0425 => assert "SHA256withDSA" == "SHA256" + "withDSA" + ""; ReadName("SHA256", "withDSA", "");
  }

  /** A PSS parameter set uses the id's content digest for the message and for MGF1,
      with a salt as long as that digest's output and the standard trailer. */
  lemma PssParametersAgree(sigAlgorithm: Int32)
    requires IsSupportedSignatureAlgorithm(sigAlgorithm)
    ensures var sig := JcaSignatureAlgorithm(sigAlgorithm).value;
      var digest := JcaDigestAlgorithm(ContentDigestAlgorithm(sigAlgorithm).value).value;
      sig.params.Some? ==>
        && sig.params.value.digest == sig.params.value.mgfDigest == digest
        && sig.params.value.mgf == "MGF1"
        && sig.params.value.saltLength == (if digest == "SHA-256" then 32 else 64)
        && sig.params.value.trailerField == 1
  {
  }

  /** The order the comparison puts content digests in, lowest first: chunked SHA-256,
      verity chunked SHA-256, chunked SHA-512. */
  function DigestRank(digestAlgorithm: Int32): nat
  {
    if digestAlgorithm == CONTENT_DIGEST_CHUNKED_SHA256 then 0
    else if digestAlgorithm == CONTENT_DIGEST_VERITY_CHUNKED_SHA256 then 1
    else 2
  }

  predicate IsRankedDigest(digestAlgorithm: Int32)
  {
    digestAlgorithm in {CONTENT_DIGEST_CHUNKED_SHA256, CONTENT_DIGEST_CHUNKED_SHA512,
                        CONTENT_DIGEST_VERITY_CHUNKED_SHA256}
  }

  function Sign(x: int): int
  {
    if x < 0 then -1 else if x > 0 then 1 else 0
  }

  /** `compareContentDigestAlgorithm`: the first argument is checked before the second. */
  function CompareContentDigestAlgorithm(digestAlgorithm1: Int32, digestAlgorithm2: Int32): (r: Result<int>)
    ensures r.Ok? <==> IsRankedDigest(digestAlgorithm1) && IsRankedDigest(digestAlgorithm2)
    ensures !IsRankedDigest(digestAlgorithm1)
      ==> r == Err(IllegalArgument(UnknownDigestAlgorithm(digestAlgorithm1)))
    ensures IsRankedDigest(digestAlgorithm1) && !IsRankedDigest(digestAlgorithm2)
      ==> r == Err(IllegalArgument(UnknownDigestAlgorithm(digestAlgorithm2)))
    ensures r.Ok? ==> r.value == Sign(DigestRank(digestAlgorithm1) - DigestRank(digestAlgorithm2))
  {
    match digestAlgorithm1
    case 1 =>
      (match digestAlgorithm2
       case 1 => Ok(0)
       case 2 => Ok(-1)
       case 3 => Ok(-1)
       case _ => Err(IllegalArgument(UnknownDigestAlgorithm(digestAlgorithm2))))
    case 2 =>
      (match digestAlgorithm2
       case 1 => Ok(1)
       case 3 => Ok(1)
       case 2 => Ok(0)
       case _ => Err(IllegalArgument(UnknownDigestAlgorithm(digestAlgorithm2))))
    case 3 =>
      (match digestAlgorithm2
       case 2 => Ok(-1)
       case 3 => Ok(0)
       case 1 => Ok(1)
       case _ => Err(IllegalArgument(UnknownDigestAlgorithm(digestAlgorithm2))))
    case _ => Err(IllegalArgument(UnknownDigestAlgorithm(digestAlgorithm1)))
  }

  /** The digest comparison is a total order on the three ranked digests: zero exactly on
      equal arguments, antisymmetric and transitive. */
  lemma CompareContentDigestIsOrder(a: Int32, b: Int32, c: Int32)
    requires IsRankedDigest(a) && IsRankedDigest(b) && IsRankedDigest(c)
    ensures CompareContentDigestAlgorithm(a, b).value == 0 <==> a == b
    ensures CompareContentDigestAlgorithm(a, b).value == -CompareContentDigestAlgorithm(b, a).value
    ensures CompareContentDigestAlgorithm(a, b).value <= 0 && CompareContentDigestAlgorithm(b, c).value <= 0
      ==> CompareContentDigestAlgorithm(a, c).value <= 0
  {
  }

  /** `compareSignatureAlgorithm`: the order of the two ids' content digests. */
  function CompareSignatureAlgorithm(sigAlgorithm1: Int32, sigAlgorithm2: Int32): (r: Result<int>)
    ensures r.Ok? <==> IsSupportedSignatureAlgorithm(sigAlgorithm1) && IsSupportedSignatureAlgorithm(sigAlgorithm2)
    ensures !IsSupportedSignatureAlgorithm(sigAlgorithm1) ==> r == Err(UnknownSignature(sigAlgorithm1))
    ensures IsSupportedSignatureAlgorithm(sigAlgorithm1) && !IsSupportedSignatureAlgorithm(sigAlgorithm2)
      ==> r == Err(UnknownSignature(sigAlgorithm2))
    ensures r.Ok? ==> -1 <= r.value <= 1
  {
    var digestAlgorithm1 :- ContentDigestAlgorithm(sigAlgorithm1);
    var digestAlgorithm2 :- ContentDigestAlgorithm(sigAlgorithm2);
    CompareContentDigestAlgorithm(digestAlgorithm1, digestAlgorithm2)
  }

  /** Signature algorithms compare as their content digests rank: SHA-512 based ones
      above verity ones, and those above plain SHA-256 ones. */
  lemma CompareSignatureByDigestRank(sigAlgorithm1: Int32, sigAlgorithm2: Int32)
    requires IsSupportedSignatureAlgorithm(sigAlgorithm1) && IsSupportedSignatureAlgorithm(sigAlgorithm2)
    ensures CompareSignatureAlgorithm(sigAlgorithm1, sigAlgorithm2).value
      == Sign(DigestRank(ContentDigestAlgorithm(sigAlgorithm1).value)
              - DigestRank(ContentDigestAlgorithm(sigAlgorithm2).value))
    ensures CompareSignatureAlgorithm(sigAlgorithm1, sigAlgorithm2).value
      == -CompareSignatureAlgorithm(sigAlgorithm2, sigAlgorithm1).value
  {
  }
}
