# APK Signing Block utilities, modelled in Dafny

This project models the core of an Android APK signature library:
- finding the APK Signing Block that sits just before the ZIP Central Directory;
- extracting a signature-scheme block from it by its numeric id;
- the length-prefixed buffer readers these parsers use;
- the signature-algorithm tables and their strength order;
- the verity digest length check;
- the proof-of-rotation verifier, which checks a chain of certificates, each signed by its predecessor;
- the verbatim certificate wrapper, whose equality and hash follow its encoded bytes;
- the hex and MD5 helpers of `MD5Util`.

## How the model is built

- Bytes are integers in `[0, 256)`. Java `int` and `long` are the subset types `Int32` and `Int64`. Wrap-around is written out (`WrapInt`, `WrapLong`) where the modelled code computes in `int` or `long`: `getByteBuffer`'s end position, the verity length check, `Arrays.hashCode` and `toHexString`'s builder capacity.
- A `java.nio.ByteBuffer` is an immutable value of data, position, limit and byte order (`Buffers.BufferState`). A call that moves the cursor returns the new state next to its result (`Step`).
- Exceptions become `Result.Err` with an error kind:
  - `SignatureNotFound`, `IOError`, `BufferUnderflow`, `IllegalArgument` or `Security`;
  - each kind carries a reason tag in place of the message text.
- Java `null` becomes `Option.None`.
- The APK file is a byte sequence. Reading it with `RandomAccessFile` is modelled as slicing it (`SigningBlock.ReadFully`).
- Collaborators that are not part of the core become parameters:
  - the ZIP utilities' answers (`SigningBlock.ZipView`);
  - `Signature.verify` (`ProofOfRotation.SignatureVerifier`);
  - `CertificateFactory.generateCertificate` (`ProofOfRotation.CertificateDecoder`);
  - the MD5 digest (`Md5Util.Digest`).

Modules follow the source:
- `Results` and `ByteCodec`: shared types, and little- and big-endian integer codecs.
- `Buffers`: buffer primitives.
- `SigningBlock`: `findSignature`, `getCentralDirOffset`, `findApkSigningBlock`.
- `SchemeBlock`: `findApkSignatureSchemeBlock`.
- `Algorithms`: the algorithm tables and comparisons.
- `Verity`: the verity digest check.
- `VerbatimCertificate`: the certificate wrapper.
- `ProofOfRotation`: the rotation verifier.
- `Md5Util`: the hex and MD5 helpers.

Each operation has a partner stated against it:
- the signing block and the ID/value pairs have writers (`EncodeSigningBlock`, `EncodePair`). The parsers are proved to accept exactly what the writers produce and to return its contents.
- The proof-of-rotation record has a writer (`EncodeRecord`, `EncodeLevel`, `EncodeSignedData`). The level reader is proved to return exactly the fields the writer put in, and every level it accepts is laid out as the writer lays it out.
- The rotation verifier is compared with a declarative reference, `LineageOf`, which says when a parsed chain of levels is a valid lineage. Over a written record, the verifier accepts exactly when the written levels form a lineage.
- The hex encoder has a decoder (`FromHexString`), with round trips proved in both directions.

## Model

| member | source | states |
|---|---|---|
| Buffers.SliceFromTo | sign/src/main/java/com/lenovo/leos/sign/ApkSigningBlockUtils.java:224-249 | succeeds exactly when `0 <= start <= end <= capacity`, otherwise IllegalArgumentException; the slice holds bytes `[start, end)` in the source's byte order and the source's position and limit are restored |
| Buffers.GetByteBuffer | sign/src/main/java/com/lenovo/leos/sign/ApkSigningBlockUtils.java:260-280 | succeeds exactly when `0 <= size <= remaining`; a negative size is IllegalArgumentException, too few bytes BufferUnderflowException; the result holds the next `size` bytes in the source's order and the source's position moves by `size` |
| Buffers.GetLengthPrefixedSlice | sign/src/main/java/com/lenovo/leos/sign/ApkSigningBlockUtils.java:282-296 | succeeds exactly when 4 bytes remain and the `int` length read is between 0 and what remains after it; under 4 bytes is an IOException, a negative length an IllegalArgumentException, an overlong one an IOException; the slice is the bytes after the prefix and the cursor moves past them |
| Buffers.ReadLengthPrefixedByteArray | sign/src/main/java/com/lenovo/leos/sign/ApkSigningBlockUtils.java:331-342 | same acceptance as the slice reader, but a missing length field is BufferUnderflowException and a negative length an IOException; returns the copied bytes and the advanced cursor |
| Buffers.LengthPrefixedRoundTrip | sign/src/main/java/com/lenovo/leos/sign/ApkSigningBlockUtils.java:282-296 | a length prefix in the buffer's order followed by the bytes is read back by both length-prefix readers as exactly those bytes, leaving the cursor after them |
| SigningBlock.GetCentralDirOffset | sign/src/main/java/com/lenovo/leos/sign/ApkSigningBlockUtils.java:105-121 | succeeds exactly when the Central Directory offset plus size equals the End of Central Directory offset, then returns the offset; otherwise SignatureNotFoundException |
| SigningBlock.FindApkSigningBlock | sign/src/main/java/com/lenovo/leos/sign/ApkSigningBlockUtils.java:123-174 | a Central Directory offset below 32 is "APK too small"; a file shorter than the offset is an end-of-file IOException; every other failure is SignatureNotFoundException; a found block lies wholly before the Central Directory, within `int` size, and is the file's bytes up to it, little-endian |
| SigningBlock.CheckFooterSpec | sign/src/main/java/com/lenovo/leos/sign/ApkSigningBlockUtils.java:138-156 | the 24-byte footer is accepted exactly when its two magic words match and its size field lies between 24 and `Integer.MAX_VALUE - 8`, and then it yields that size |
| SigningBlock.ReadBlockSpec | sign/src/main/java/com/lenovo/leos/sign/ApkSigningBlockUtils.java:157-173 | a footer size is accepted exactly when the block it implies starts inside the file and its leading size field repeats the footer's |
| SigningBlock.FindApkSigningBlockSpec | sign/src/main/java/com/lenovo/leos/sign/ApkSigningBlockUtils.java:123-174 | the block is found exactly when a well-formed signing block ends at the Central Directory, and it starts `size + 8` bytes before it |
| SigningBlock.LocateEncodedBlock | sign/src/main/java/com/lenovo/leos/sign/ApkSigningBlockUtils.java:123-174 | writer then reader: a block written by `EncodeSigningBlock` just before the Central Directory is found at its offset with exactly its bytes |
| SigningBlock.LocatedBlockIsEncoded | sign/src/main/java/com/lenovo/leos/sign/ApkSigningBlockUtils.java:123-174 | reader then writer: every block the locator accepts is the writer's encoding of its own pairs region |
| SigningBlock.BlockBeforeIsBlockLongs | sign/src/main/java/com/lenovo/leos/sign/ApkSigningBlockUtils.java:129-173 | the bytes between an offset and the Central Directory carry the two equal size fields and the magic exactly when the locator's checks pass and the offset is the one it computes |
| SigningBlock.FindSignature | sign/src/main/java/com/lenovo/leos/sign/ApkSigningBlockUtils.java:61-103 | no End of Central Directory record is "not an APK"; a ZIP64 locator is "not supported"; a result carries the record and its offset, the Central Directory offset with the directory ending at the record, and a signing block that lies before the directory within `int` size |
| SigningBlock.FindSignatureSpec | sign/src/main/java/com/lenovo/leos/sign/ApkSigningBlockUtils.java:61-86 | for a non-ZIP64 file, the lookup succeeds exactly when the directory abuts the record, a signing block ends at the directory, and that block holds the requested id; the scheme block returned is the extractor's answer on that block |
| SigningBlock.FindSignatureInEncodedApk | sign/src/main/java/com/lenovo/leos/sign/ApkSigningBlockUtils.java:61-86 | for a file whose signing block was written from pairs in which the id first occurs with value `v`, the lookup returns `v` with the block's offset, the directory offset and the record |
| SchemeBlock.FindApkSignatureSchemeBlock | sign/src/main/java/com/lenovo/leos/sign/ApkSigningBlockUtils.java:176-216 | a block not in little-endian order is IllegalArgumentException; a block under 32 bytes fails the slice; every other failure is SignatureNotFoundException; a result is a fresh little-endian buffer at least 36 bytes shorter than the block |
| SchemeBlock.ReadEntryHeader | sign/src/main/java/com/lenovo/leos/sign/ApkSigningBlockUtils.java:189-206 | an entry is rejected as too short (under 8 bytes) or out of range (length under 4 or beyond what remains); an accepted header has its value start 12 bytes in |
| SchemeBlock.HeaderFields | sign/src/main/java/com/lenovo/leos/sign/ApkSigningBlockUtils.java:189-206 | an entry header is accepted exactly when 8 bytes remain and the `long` length read lies in `[4, remaining - 8]`, and the id is the `int` after the length |
| SchemeBlock.ScanPairs | sign/src/main/java/com/lenovo/leos/sign/ApkSigningBlockUtils.java:188-215 | the scan fails only with SignatureNotFoundException and stops at an entry carrying the requested id, past its header, in the same buffer |
| SchemeBlock.DecodeEncodedPair | sign/src/main/java/com/lenovo/leos/sign/ApkSigningBlockUtils.java:189-210 | writer then reader for one pair: an encoded pair is read back with its length, id and value, and leaves the cursor on what follows |
| SchemeBlock.EncodeDecodedPair | sign/src/main/java/com/lenovo/leos/sign/ApkSigningBlockUtils.java:189-210 | reader then writer for one pair: every accepted header starts the encoding of a well-sized pair, followed by the rest |
| SchemeBlock.ScanFindsFirstMatch | sign/src/main/java/com/lenovo/leos/sign/ApkSigningBlockUtils.java:188-211 | over encoded pairs in which the id first occurs with value `v`, the scan stops there and yields `v` |
| SchemeBlock.ScanReportsMissingId | sign/src/main/java/com/lenovo/leos/sign/ApkSigningBlockUtils.java:188-215 | over encoded pairs none of which has the id, the scan ends with "no block with id" |
| SchemeBlock.ScanResultIsFirstMatch | sign/src/main/java/com/lenovo/leos/sign/ApkSigningBlockUtils.java:188-211 | whatever the scan returns is the value of the first pair with the id in an encoding of pairs |
| SchemeBlock.FindSchemeBlockReturnsFirstMatch | sign/src/main/java/com/lenovo/leos/sign/ApkSigningBlockUtils.java:176-216 | on a little-endian block whose pairs region encodes pairs where the id first occurs with value `v`, the extractor returns `v` |
| SchemeBlock.FindSchemeBlockResultIsFirstMatch | sign/src/main/java/com/lenovo/leos/sign/ApkSigningBlockUtils.java:176-216 | every value the extractor returns is the first match for the id in an encoding of the block's pairs region |
| SchemeBlock.FindSchemeBlockReportsMissingId | sign/src/main/java/com/lenovo/leos/sign/ApkSigningBlockUtils.java:176-216 | on a block whose pairs all carry other ids, the extractor reports the id missing |
| SchemeBlock.SchemeBlockReadsOnlyPairs | sign/src/main/java/com/lenovo/leos/sign/ApkSigningBlockUtils.java:180-186 | the extractor ignores the block's size fields and magic: blocks with equal pairs regions give equal answers |
| Algorithms.IsSupportedSignatureAlgorithm | sign/src/main/java/com/lenovo/leos/sign/ApkSigningBlockUtils.java:344-360 | an id is supported exactly when it is one of the ten declared constants, `0x0101`-`0x0104`, `0x0201`, `0x0202`, `0x0301`, `0x0421`, `0x0423` and `0x0425` |
| Algorithms.SupportedAreDeclared | sign/src/main/java/com/lenovo/leos/sign/ApkSigningBlockUtils.java:344-360 | an id is supported exactly when it is one of the ten declared signature algorithm constants |
| Algorithms.ContentDigestAlgorithm | sign/src/main/java/com/lenovo/leos/sign/ApkSigningBlockUtils.java:368-388 | defined exactly on the supported ids, otherwise IllegalArgumentException; the answer is one of the three chunked digests, and it is the verity digest exactly for the `0x04xx` ids |
| Algorithms.JcaKeyAlgorithm | sign/src/main/java/com/lenovo/leos/sign/ApkSigningBlockUtils.java:390-410 | defined exactly on the supported ids, answering RSA, EC or DSA; otherwise IllegalArgumentException |
| Algorithms.JcaSignatureAlgorithm | sign/src/main/java/com/lenovo/leos/sign/ApkSigningBlockUtils.java:412-442 | defined exactly on the supported ids; parameters are present exactly for the two RSA-PSS ids |
| Algorithms.JcaDigestAlgorithm | sign/src/main/java/com/lenovo/leos/sign/ApkSigningBlockUtils.java:444-455 | defined exactly on the three chunked digest ids, otherwise IllegalArgumentException naming the id |
| Algorithms.SignatureNameAgrees | sign/src/main/java/com/lenovo/leos/sign/ApkSigningBlockUtils.java:368-442 | the tables agree: each JCA signature name begins with the JCA name of its content digest and continues with `with` and its key algorithm |
| Algorithms.PssParametersAgree | sign/src/main/java/com/lenovo/leos/sign/ApkSigningBlockUtils.java:412-442 | PSS parameters use the id's own digest for the message and for MGF1, a salt as long as that digest, and trailer field 1 |
| Algorithms.CompareContentDigestAlgorithm | sign/src/main/java/com/lenovo/leos/sign/ApkSigningBlockUtils.java:547-586 | defined exactly when both ids are ranked digests; an unknown first id is reported before an unknown second one; the answer is the sign of the strength difference in the order SHA-256 < verity SHA-256 < SHA-512 |
| Algorithms.CompareContentDigestIsOrder | sign/src/main/java/com/lenovo/leos/sign/ApkSigningBlockUtils.java:547-586 | the comparison is a total order: zero only for equal ids, antisymmetric and transitive |
| Algorithms.CompareSignatureAlgorithm | sign/src/main/java/com/lenovo/leos/sign/ApkSigningBlockUtils.java:362-366 | defined exactly when both ids are supported, with the first unknown id reported first; answers -1, 0 or 1 |
| Algorithms.CompareSignatureByDigestRank | sign/src/main/java/com/lenovo/leos/sign/ApkSigningBlockUtils.java:362-366 | signature algorithms compare by the strength of their content digests, antisymmetrically |
| Verity.ParseVerityDigestAndVerifySourceLength | sign/src/main/java/com/lenovo/leos/sign/ApkSigningBlockUtils.java:306-329 | data not 40 bytes long is a SecurityException for size; otherwise the root hash, its first 32 bytes, is released exactly when the little-endian length after it equals the file size less the signing block (in `long` arithmetic); a mismatch is a SecurityException |
| Verity.VerityAcceptsContentLength | sign/src/main/java/com/lenovo/leos/sign/ApkSigningBlockUtils.java:306-329 | for a signing block placed inside the file no subtraction wraps: the digest is accepted exactly when its length field is the content length |
| Verity.VerityRoundTrip | sign/src/main/java/com/lenovo/leos/sign/ApkSigningBlockUtils.java:306-329 | a digest written as root hash plus content length is accepted and yields the root hash |
| Verity.AcceptedVerityIsWritten | sign/src/main/java/com/lenovo/leos/sign/ApkSigningBlockUtils.java:306-329 | every accepted digest is exactly the written form of its root hash and the content length |
| VerbatimCertificate.NewVerbatim | sign/src/main/java/com/lenovo/leos/sign/VerbatimX509Certificate.java:15-23 | the wrapper reports the bytes it was given as its encoding, not the wrapped certificate's, and keeps the wrapped public key |
| VerbatimCertificate.ArraysEquals | sign/src/main/java/com/lenovo/leos/sign/VerbatimX509Certificate.java:31-33 | the element-by-element comparison holds exactly when the arrays are equal |
| VerbatimCertificate.Equals | sign/src/main/java/com/lenovo/leos/sign/VerbatimX509Certificate.java:25-37 | equal exactly to another verbatim certificate with the same encoded bytes, whatever certificate each wraps |
| VerbatimCertificate.EqualsIsEquivalence | sign/src/main/java/com/lenovo/leos/sign/VerbatimX509Certificate.java:25-37 | `equals` is reflexive, symmetric and transitive, and false for null |
| VerbatimCertificate.HashCodeIsWrappedPolynomial | sign/src/main/java/com/lenovo/leos/sign/VerbatimX509Certificate.java:43 | `Arrays.hashCode` with `int` wrap-around at every step equals the unbounded polynomial hash reduced once into `int` range |
| VerbatimCertificate.HashCode | sign/src/main/java/com/lenovo/leos/sign/VerbatimX509Certificate.java:39-49 | from any cache state the method can leave, it returns the hash of the encoded bytes and leaves a valid cache |
| VerbatimCertificate.EqualCertificatesHashAlike | sign/src/main/java/com/lenovo/leos/sign/VerbatimX509Certificate.java:25-49 | certificates that are `equals` have equal hash codes, whatever their caches hold |
| VerbatimCertificate.HashCodeStable | sign/src/main/java/com/lenovo/leos/sign/VerbatimX509Certificate.java:39-49 | a second call with the cache the first call left returns the same hash |
| ProofOfRotation.ReadEncodedLevel | sign/src/main/java/com/lenovo/leos/sign/ApkSigningBlockUtils.java:488-492 | a level written as a length prefix over the length-prefixed signed data, the flags, the next level's algorithm id and the length-prefixed signature, possibly followed by further bytes, is read as exactly those four fields, and the cursor moves past the level |
| ProofOfRotation.ReadLevelFrameLayout | sign/src/main/java/com/lenovo/leos/sign/ApkSigningBlockUtils.java:488-492 | every level the reader accepts is a length prefix over bytes that start with the signed data, the flags, the next algorithm id and the signature, laid out as the writer lays them out |
| ProofOfRotation.SignedDataLayout | sign/src/main/java/com/lenovo/leos/sign/ApkSigningBlockUtils.java:512-514 | the signed data reads as a certificate and an algorithm id exactly when it starts with the length-prefixed certificate followed by that id |
| ProofOfRotation.VerifyWithPrevious | sign/src/main/java/com/lenovo/leos/sign/ApkSigningBlockUtils.java:494-509 | passes exactly when the previous algorithm id is known and the primitive verifies the signature over the signed data with the previous certificate's key; fails with IllegalArgumentException or SecurityException; leaves the signed data consumed but otherwise unchanged |
| ProofOfRotation.HistoryContainsEncoding | sign/src/main/java/com/lenovo/leos/sign/ApkSigningBlockUtils.java:522-527 | the hash set of verbatim certificates finds a certificate exactly when its encoding was recorded before |
| ProofOfRotation.VerifyLevel | sign/src/main/java/com/lenovo/leos/sign/ApkSigningBlockUtils.java:494-530 | an accepted level appends its certificate and flags to the lists and makes its own algorithm id the one that verifies the next level |
| ProofOfRotation.VerifyLevelAccepts | sign/src/main/java/com/lenovo/leos/sign/ApkSigningBlockUtils.java:494-530 | a level is accepted exactly when its signed data parses, it is linked to the previous level, its certificate decodes and its encoding is new; the accepted certificate is the verbatim wrapper of that encoding |
| ProofOfRotation.VerifyLevels | sign/src/main/java/com/lenovo/leos/sign/ApkSigningBlockUtils.java:486-531 | the loop adds as many certificates as flags and only extends the flags list |
| ProofOfRotation.RewrapParseFailure | sign/src/main/java/com/lenovo/leos/sign/ApkSigningBlockUtils.java:532-534 | IOException and BufferUnderflowException both become the one "failed to parse" IOException; other errors pass through unchanged |
| ProofOfRotation.VerifyProofOfRotationStruct | sign/src/main/java/com/lenovo/leos/sign/ApkSigningBlockUtils.java:457-545 | a record without a 4-byte version code is a parse IOException; no buffer underflow escapes and the only IOException is the parse one; a result has one flags word per certificate |
| ProofOfRotation.ParseLevels | sign/src/main/java/com/lenovo/leos/sign/ApkSigningBlockUtils.java:486-515 | parsing the levels without checking the chain fails only with parse errors, never a SecurityException |
| ProofOfRotation.VerifyLevelsAcceptsLineages | sign/src/main/java/com/lenovo/leos/sign/ApkSigningBlockUtils.java:486-531 | the loop from any state accepts exactly when the remaining levels parse and form a lineage from that state, and then appends that lineage's certificates and flags |
| ProofOfRotation.VerifyAcceptsExactlyLineages | sign/src/main/java/com/lenovo/leos/sign/ApkSigningBlockUtils.java:457-545 | the verifier accepts exactly the records with a version code whose levels parse and form a lineage, and returns that lineage |
| ProofOfRotation.LineageProperties | sign/src/main/java/com/lenovo/leos/sign/ApkSigningBlockUtils.java:486-531 | a lineage has one certificate and one flags word per level, in order; each certificate carries its level's encoding; encodings are pairwise distinct; every level after the first is verified by its predecessor's key under its predecessor's algorithm, which its signed data repeats |
| ProofOfRotation.ParseEncodedLevels | sign/src/main/java/com/lenovo/leos/sign/ApkSigningBlockUtils.java:486-515 | a chain of written levels parses back to the written certificates, algorithm ids, flags and signatures, with the signed data exactly as written |
| ProofOfRotation.ParsedLevelsAreEncoded | sign/src/main/java/com/lenovo/leos/sign/ApkSigningBlockUtils.java:486-515 | every level that parses holds its certificate and signed algorithm id laid out as the writer lays out signed data |
| ProofOfRotation.VerifyEncodedRecord | sign/src/main/java/com/lenovo/leos/sign/ApkSigningBlockUtils.java:457-545 | a written record verifies exactly when its written levels form a lineage, and then yields that lineage; each signature is checked over exactly the signed data written in its level |
| ProofOfRotation.VersionOnlyRecord | sign/src/main/java/com/lenovo/leos/sign/ApkSigningBlockUtils.java:483-487 | a record holding only the version code verifies with no certificates |
| ProofOfRotation.NegativeLevelLengthEscapes | sign/src/main/java/com/lenovo/leos/sign/ApkSigningBlockUtils.java:282-291 | a negative level length raises IllegalArgumentException, which passes through the verifier's handlers unchanged |
| Md5Util.Hex | sign/src/main/java/com/lenovo/leos/sign/MD5Util.java:39-43 | the rendering is twice as long as the input, and characters `2i` and `2i+1` are the digits of the high and low nibble of byte `i` |
| Md5Util.ToHexString | sign/src/main/java/com/lenovo/leos/sign/MD5Util.java:37-44 | an array of fewer than 2^30 bytes gives its rendering, which decodes back to the array; from 2^30 bytes on, `b.length * 2` wraps negative and the builder throws |
| Md5Util.HexIsUpperHex | sign/src/main/java/com/lenovo/leos/sign/MD5Util.java:20-44 | every output character is `0`-`9` or `A`-`F` |
| Md5Util.HexRoundTrip | sign/src/main/java/com/lenovo/leos/sign/MD5Util.java:37-44 | decoding the hex string gives the bytes back |
| Md5Util.HexStringsAreEncodings | sign/src/main/java/com/lenovo/leos/sign/MD5Util.java:37-44 | every even-length upper-case hex string is the encoding of the bytes it decodes to |
| Md5Util.HexInjective | sign/src/main/java/com/lenovo/leos/sign/MD5Util.java:37-44 | different byte arrays never render alike |
| Md5Util.BytesEmpty | sign/src/main/java/com/lenovo/leos/sign/MD5Util.java:86-88 | true exactly for a null or zero-length array |
| Md5Util.IsEmpty | sign/src/main/java/com/lenovo/leos/sign/MD5Util.java:90-92 | true exactly for a null or zero-length string |
| Md5Util.Encoding | sign/src/main/java/com/lenovo/leos/sign/MD5Util.java:23-35 | a null or empty array gives `""`; otherwise the result is null exactly when the digest throws or is 2^30 bytes or longer, as the handler catches every exception; otherwise it decodes back to the digest |
| Md5Util.EmptyBytesSkipDigest | sign/src/main/java/com/lenovo/leos/sign/MD5Util.java:23-35 | a null or empty array never reaches the digest: any two digests give the same answer |
| Md5Util.Utf8OfAscii | sign/src/main/java/com/lenovo/leos/sign/MD5Util.java:58 | the UTF-8 bytes of an ASCII string are its character codes, one byte each |
| Md5Util.EncodingString | sign/src/main/java/com/lenovo/leos/sign/MD5Util.java:46-51 | a null or empty string gives null; otherwise the result is null exactly when the digest of the UTF-8 bytes throws or is too long to render, and otherwise it decodes to that digest |
| Md5Util.EncodeTwice | sign/src/main/java/com/lenovo/leos/sign/MD5Util.java:53-61 | a null or empty string gives null, and a result implies that the first digest succeeded |
| Md5Util.EncodeTwiceIsEncodingTwice | sign/src/main/java/com/lenovo/leos/sign/MD5Util.java:53-61 | whenever the first rendering is non-empty, `encodeTwice(t)` equals `encoding(encoding(t))` |
| Md5Util.EncodeTwiceOfMd5 | sign/src/main/java/com/lenovo/leos/sign/MD5Util.java:53-61 | with a 16-byte digest, the first rendering is 32 ASCII digits whose UTF-8 bytes are their codes, and the result is the 32-digit hex of the digest of those bytes |

## Behaviour worth knowing

- The code declares ten signature algorithm ids.
- `getLengthPrefixedSlice` throws IllegalArgumentException for a negative length. The rotation verifier catches only IOException and BufferUnderflowException, so this exception escapes it unwrapped (`ProofOfRotation.NegativeLevelLengthEscapes`). An unknown algorithm id on the previous level also escapes as IllegalArgumentException from the table lookup.
- Length prefixes are signed `int`s in the buffer's byte order.
- `readLengthPrefixedByteArray` lets the buffer's own BufferUnderflowException through when fewer than 4 bytes remain.
- The rotation reader ignores bytes after the signature inside a level, and bytes after the algorithm id inside the signed data.
- `encodeTwice` feeds the first rendering to `encoding(byte[])`. An empty first rendering would therefore give `""`, where `encoding(String)` would give null. That cannot happen with a 16-byte digest.

## Left out

- File I/O: `RandomAccessFile` reads are modelled as slicing the file's bytes. A read past the end is an IOException.
- The ZIP utilities (`findZipEndOfCentralDirectoryRecord`, the ZIP64 locator check, and the End of Central Directory field getters) are not part of this model. Their answers are inputs (`SigningBlock.ZipView`).
- `MessageDigest`, `Signature` and `CertificateFactory` are parameters. No cryptography is modelled.
- The exception classes the JCA can throw are not told apart. All of them become one verifier outcome, as the verifier's handler treats them alike.
- `md5sum(File)` and `md5sum(InputStream)`: stream reading of a file, outside the core.
- The MD5 algorithm itself is not modelled.
- `e.printStackTrace()` in `encoding(byte[])`'s handler writes to the standard error stream. It is output only and does not change the result, so it is not modelled.
- `String.getBytes(UTF_8)` is modelled for Unicode scalar values only. Unpaired UTF-16 surrogates, which Java replaces with `?`, cannot occur in a Dafny string.
- `WrappedX509Certificate`'s delegation of the other `X509Certificate` methods: only `getPublicKey` is used by the core.
- The `CertificateEncodingException` handlers in `equals` and `hashCode` are not modelled. `getEncoded` of a verbatim certificate cannot throw.
- The buffers' shared backing arrays are not modelled. Slices copy bytes, and nothing in the core writes to a buffer.
- The exception message texts are not modelled. Reason tags stand for them.
- The per-scheme façades that call these utilities, and the user interface.
