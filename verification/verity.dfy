/** `parseVerityDigestAndVerifySourceLength`: a verity digest is a 32-byte Merkle tree
    root hash followed by the little-endian `long` length of the content the tree covers,
    which is the file without its signing block. The root is released only when that
    length matches the file at hand, so that files differing only in trailing zero bytes
    (which pad the last chunk identically) cannot share a digest. */
module Verity {
  import opened Results
  import opened ByteCodec
  import opened Buffers
  import opened SigningBlock

  const ROOT_HASH_SIZE: nat := 32
  const SOURCE_LENGTH_SIZE: nat := 8

  /** The size of the signing block as the source computes it, in `long` arithmetic. */
  function SigningBlockSize(info: SignatureInfo): Int64
  {
    WrapLong(info.centralDirOffset - info.apkSigningBlockOffset)
  }

  function ParseVerityDigestAndVerifySourceLength(data: seq<byte>, fileSize: Int64, info: SignatureInfo)
    : (r: Result<seq<byte>>)
    ensures |data| != ROOT_HASH_SIZE + SOURCE_LENGTH_SIZE ==> r == Err(Security(VerityDigestWrongSize))
    ensures r.Ok? <==> (&& |data| == ROOT_HASH_SIZE + SOURCE_LENGTH_SIZE
                        && LongAt(data, ROOT_HASH_SIZE) == WrapLong(fileSize - SigningBlockSize(info)))
    ensures r.Err? && |data| == ROOT_HASH_SIZE + SOURCE_LENGTH_SIZE ==> r.error == Security(ContentSizeMismatch)
    ensures r.Ok? ==> r.value == data[..ROOT_HASH_SIZE]
  {
    if |data| != ROOT_HASH_SIZE + SOURCE_LENGTH_SIZE then Err(Security(VerityDigestWrongSize))
    else
      var buffer := SetPosition(Wrap(data, LittleEndian), ROOT_HASH_SIZE).value;
      var expectedSourceLength := GetLong(buffer).value.value;
      var signingBlockSize := WrapLong(info.centralDirOffset - info.apkSigningBlockOffset);
      if expectedSourceLength != WrapLong(fileSize - signingBlockSize) then
        Err(Security(ContentSizeMismatch))
      else
        Ok(data[0..ROOT_HASH_SIZE])
  }

  /** Where `findSignature` places things: the signing block starts at or after the file's
      start and ends at the central directory, inside a file of the given size. */
  predicate Positioned(fileSize: Int64, info: SignatureInfo)
  {
    0 <= info.apkSigningBlockOffset <= info.centralDirOffset <= fileSize
  }

  /** For a located signing block no subtraction wraps: the digest is accepted exactly when
      its length field is the file size less the signing block. */
  lemma VerityAcceptsContentLength(data: seq<byte>, fileSize: Int64, info: SignatureInfo)
    requires Positioned(fileSize, info)
    ensures ParseVerityDigestAndVerifySourceLength(data, fileSize, info).Ok?
      <==> (&& |data| == ROOT_HASH_SIZE + SOURCE_LENGTH_SIZE
            && LongAt(data, ROOT_HASH_SIZE)
               == fileSize - (info.centralDirOffset - info.apkSigningBlockOffset))
  {
  }

  /** The writer's digest: the root hash, then the covered length as a little-endian long. */
  function VerityDigest(root: seq<byte>, contentLength: Int64): (r: seq<byte>)
    requires |root| == ROOT_HASH_SIZE
    ensures |r| == ROOT_HASH_SIZE + SOURCE_LENGTH_SIZE
  {
    root + EncodeLong(contentLength, LittleEndian)
  }

  /** Writer then parser: a digest written for the file's content length yields its root
      hash back. */
  lemma VerityRoundTrip(root: seq<byte>, fileSize: Int64, info: SignatureInfo)
    requires |root| == ROOT_HASH_SIZE
    requires Positioned(fileSize, info)
    ensures var contentLength := fileSize - (info.centralDirOffset - info.apkSigningBlockOffset);
      ParseVerityDigestAndVerifySourceLength(VerityDigest(root, contentLength), fileSize, info) == Ok(root)
  {
    var contentLength := fileSize - (info.centralDirOffset - info.apkSigningBlockOffset);
    var data := VerityDigest(root, contentLength);
    assert data[ROOT_HASH_SIZE..ROOT_HASH_SIZE + 8] == EncodeLong(contentLength, LittleEndian);
    assert data[..ROOT_HASH_SIZE] == root;
  }

  /** Parser then writer: an accepted digest is the writer's digest of its root for the
      file's content length, so the length field carries nothing else. */
  lemma AcceptedVerityIsWritten(data: seq<byte>, fileSize: Int64, info: SignatureInfo)
    requires Positioned(fileSize, info)
    requires ParseVerityDigestAndVerifySourceLength(data, fileSize, info).Ok?
    ensures var contentLength := fileSize - (info.centralDirOffset - info.apkSigningBlockOffset);
      data == VerityDigest(data[..ROOT_HASH_SIZE], contentLength)
  {
    var contentLength := fileSize - (info.centralDirOffset - info.apkSigningBlockOffset);
    var field := data[ROOT_HASH_SIZE..ROOT_HASH_SIZE + 8];
    DecodeLongInjective(field, EncodeLong(contentLength, LittleEndian), LittleEndian);
    assert data == data[..ROOT_HASH_SIZE] + field;
  }
}
