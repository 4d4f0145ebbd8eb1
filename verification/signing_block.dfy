/** Locating the APK Signing Block (`findApkSigningBlock`), which sits immediately before
    the ZIP Central Directory, and the composition `findSignature` that goes from the
    file to the requested scheme block. The file is a byte sequence; what the ZIP
    utilities report about it (the End of Central Directory record and its fields) is
    passed in. The block is laid out as

      u64 size | ID/value pairs | u64 size | 16-byte magic "APK Sig Block 42"

    where both size fields count everything after the leading one. */
module SigningBlock {
  import opened Results
  import opened ByteCodec
  import opened Buffers
  import opened SchemeBlock

  const APK_SIG_BLOCK_MAGIC_HI: Int64 := 0x3234206b636f6c42
  const APK_SIG_BLOCK_MAGIC_LO: Int64 := 0x20676953204b5041
  const APK_SIG_BLOCK_MIN_SIZE: int := 32

  /** The footer: the trailing size field and the magic. */
  const FOOTER_SIZE: int := 24

  /** `seek(offset)` then `readFully` of `n` bytes from a file holding `file`. */
  function ReadFully(file: seq<byte>, offset: int, n: nat): (r: Result<seq<byte>>)
    ensures r.Ok? <==> 0 <= offset && offset + n <= |file|
    ensures r.Err? && 0 <= offset ==> r.error == IOError(EndOfFile)
    ensures r.Ok? ==> |r.value| == n
  {
    if offset < 0 then Err(IOError(NegativeSeek))
    else if offset + n > |file| then Err(IOError(EndOfFile))
    else Ok(file[offset..offset + n])
  }

  /** The located block and its offset in the file. */
  datatype SigningBlockAt = SigningBlockAt(block: ByteBuffer, offset: Int64)

  /** `findApkSigningBlock(apk, centralDirOffset)`: read the footer, check it, then read
      the whole block and check its leading size field. */
  function FindApkSigningBlock(file: seq<byte>, centralDirOffset: Int64): (r: Result<SigningBlockAt>)
    ensures centralDirOffset < APK_SIG_BLOCK_MIN_SIZE ==> r == Err(SignatureNotFound(ApkTooSmall))
    ensures APK_SIG_BLOCK_MIN_SIZE <= centralDirOffset && |file| < centralDirOffset
      ==> r == Err(IOError(EndOfFile))
    ensures r.Err? && centralDirOffset <= |file| ==> r.error.SignatureNotFound?
    ensures r.Ok? ==> var at := r.value;
      && 0 <= at.offset && at.offset + APK_SIG_BLOCK_MIN_SIZE <= centralDirOffset <= |file|
      && centralDirOffset - at.offset <= INT_MAX
      && at.block == Wrap(file[at.offset..centralDirOffset], LittleEndian)
  {
    if centralDirOffset < APK_SIG_BLOCK_MIN_SIZE then Err(SignatureNotFound(ApkTooSmall))
    else
      var footerBytes :- ReadFully(file, centralDirOffset - FOOTER_SIZE, FOOTER_SIZE);
      var sizeInFooter :- CheckFooter(Wrap(footerBytes, LittleEndian));
      ReadBlock(file, centralDirOffset, sizeInFooter)
  }

  /** The footer checks of `findApkSigningBlock`: both magic halves, then the range of the
      size field, which is returned. */
  function CheckFooter(footer: ByteBuffer): (r: Result<Int64>)
    requires footer.limit == FOOTER_SIZE
    ensures r.Ok? ==> FOOTER_SIZE <= r.value <= INT_MAX - 8
    ensures r.Err? ==> r.error.SignatureNotFound?
  {
    if GetLongAt(footer, 8).value != APK_SIG_BLOCK_MAGIC_LO
       || GetLongAt(footer, 16).value != APK_SIG_BLOCK_MAGIC_HI
    then Err(SignatureNotFound(NoSigningBlockMagic))
    else
      var sizeInFooter := GetLongAt(footer, 0).value;
      if sizeInFooter < FOOTER_SIZE || sizeInFooter > INT_MAX - 8 then
        Err(SignatureNotFound(BlockSizeOutOfRange))
      else Ok(sizeInFooter)
  }

  /** The rest of `findApkSigningBlock` once the footer has passed: locate the block's
      start, read the block and compare its leading size field with the footer's. */
  function ReadBlock(file: seq<byte>, centralDirOffset: Int64, sizeInFooter: Int64): (r: Result<SigningBlockAt>)
    requires APK_SIG_BLOCK_MIN_SIZE <= centralDirOffset <= |file|
    requires FOOTER_SIZE <= sizeInFooter <= INT_MAX - 8
    ensures r.Err? ==> r.error.SignatureNotFound?
    ensures r.Ok? ==> var at := r.value;
      && at.offset == centralDirOffset - sizeInFooter - 8 >= 0
      && at.block == Wrap(file[at.offset..centralDirOffset], LittleEndian)
  {
    // `(int) (sizeInFooter + 8)` and the `long` subtraction: neither can wrap here
    var totalSize := WrapInt(sizeInFooter + 8);
    var blockOffset := WrapLong(centralDirOffset - totalSize);
    if blockOffset < 0 then Err(SignatureNotFound(BlockOffsetOutOfRange))
    else
      var blockBytes := ReadFully(file, blockOffset, totalSize).value;
      var block := Wrap(blockBytes, LittleEndian);
      if GetLongAt(block, 0).value != sizeInFooter then
        Err(SignatureNotFound(HeaderFooterSizeMismatch))
      else
        Ok(SigningBlockAt(block, blockOffset))
  }

  /** The footer's fields are the file's `long`s just before the central directory. */
  lemma FooterFields(file: seq<byte>, cd: int)
    requires FOOTER_SIZE <= cd <= |file|
    ensures var footer := Wrap(file[cd - FOOTER_SIZE..cd], LittleEndian);
      && GetLongAt(footer, 0) == Ok(LongAt(file, cd - 24))
      && GetLongAt(footer, 8) == Ok(LongAt(file, cd - 16))
      && GetLongAt(footer, 16) == Ok(LongAt(file, cd - 8))
  {
    var footerBytes := file[cd - 24..cd];
    assert footerBytes[0..8] == file[cd - 24..cd - 16];
    assert footerBytes[8..16] == file[cd - 16..cd - 8];
    assert footerBytes[16..24] == file[cd - 8..cd];
  }

  /** The footer check accepts exactly a footer with the magic and a size in range. */
  lemma CheckFooterSpec(file: seq<byte>, cd: int)
    requires FOOTER_SIZE <= cd <= |file|
    ensures var r := CheckFooter(Wrap(file[cd - FOOTER_SIZE..cd], LittleEndian));
      && (r.Ok? <==> (&& LongAt(file, cd - 16) == APK_SIG_BLOCK_MAGIC_LO
                      && LongAt(file, cd - 8) == APK_SIG_BLOCK_MAGIC_HI
                      && FOOTER_SIZE <= BlockSize(file, cd) <= INT_MAX - 8))
      && (r.Ok? ==> r.value == BlockSize(file, cd))
  {
    FooterFields(file, cd);
  }

  /** Reading the block succeeds exactly when it fits before the central directory and
      starts with the footer's size. */
  lemma ReadBlockSpec(file: seq<byte>, centralDirOffset: Int64, size: Int64)
    requires APK_SIG_BLOCK_MIN_SIZE <= centralDirOffset <= |file|
    requires FOOTER_SIZE <= size <= INT_MAX - 8
    ensures ReadBlock(file, centralDirOffset, size).Ok?
      <==> size + 8 <= centralDirOffset && LongAt(file, centralDirOffset - size - 8) == size
  {
    if size + 8 <= centralDirOffset {
      var offset := centralDirOffset - size - 8;
      var block := Wrap(file[offset..centralDirOffset], LittleEndian);
      assert block.data[0..8] == file[offset..offset + 8];
    }
  }

  /** The locator accepts exactly the files with a signing block right before the central
      directory, and returns that block and its offset. */
  lemma FindApkSigningBlockSpec(file: seq<byte>, centralDirOffset: Int64)
    ensures var r := FindApkSigningBlock(file, centralDirOffset);
      && (r.Ok? <==> SigningBlockBefore(file, centralDirOffset))
      && (r.Ok? ==> r.value.offset == centralDirOffset - BlockSize(file, centralDirOffset) - 8)
  {
    var cd := centralDirOffset;
    if APK_SIG_BLOCK_MIN_SIZE <= cd <= |file| {
      var footer := Wrap(file[cd - FOOTER_SIZE..cd], LittleEndian);
      assert FindApkSigningBlock(file, cd)
        == (var size :- CheckFooter(footer); ReadBlock(file, cd, size));
      CheckFooterSpec(file, cd);
      if CheckFooter(footer).Ok? {
        ReadBlockSpec(file, cd, BlockSize(file, cd));
      }
    }
  }

  /** The block size recorded in the footer just before the central directory. */
  function BlockSize(file: seq<byte>, cd: int): Int64
    requires 24 <= cd <= |file|
  {
    LongAt(file, cd - 24)
  }

  /** The bytes just before `cd` end with the magic, preceded by a size field in range
      whose copy at the block's start agrees with it. */
  predicate SigningBlockBefore(file: seq<byte>, cd: int)
  {
    && APK_SIG_BLOCK_MIN_SIZE <= cd <= |file|
    && LongAt(file, cd - 16) == APK_SIG_BLOCK_MAGIC_LO
    && LongAt(file, cd - 8) == APK_SIG_BLOCK_MAGIC_HI
    && FOOTER_SIZE <= BlockSize(file, cd) <= INT_MAX - 8
    && BlockSize(file, cd) + 8 <= cd
    && LongAt(file, cd - BlockSize(file, cd) - 8) == BlockSize(file, cd)
  }

  /** The writer's layout of a signing block around the pair bytes `payload`. */
  function EncodeSigningBlock(payload: seq<byte>): (r: seq<byte>)
    requires |payload| <= INT_MAX - 32
    ensures |r| == |payload| + 32
  {
    var size := |payload| + 24;
    EncodeLE(size, 8) + payload + EncodeLE(size, 8)
      + EncodeLE(APK_SIG_BLOCK_MAGIC_LO, 8) + EncodeLE(APK_SIG_BLOCK_MAGIC_HI, 8)
  }

  /** The five parts of a concatenation are found again at their offsets. */
  lemma PartsOf<T>(a: seq<T>, b: seq<T>, c: seq<T>, d: seq<T>, e: seq<T>)
    requires |a| == 8 && |c| == 8 && |d| == 8 && |e| == 8
    ensures var s := a + b + c + d + e; var n := |s|;
      && s[..8] == a && s[8..n - 24] == b && s[n - 24..n - 16] == c
      && s[n - 16..n - 8] == d && s[n - 8..] == e
  {
    var s := a + b + c + d + e;
    var n := |s|;
    assert s[..8] == a;
    assert s[8..n - 24] == b;
    assert s[n - 24..n - 16] == c;
    assert s[n - 16..n - 8] == d;
    assert s[n - 8..] == e;
  }

  /** A sequence is the concatenation of its five parts cut at those offsets. */
  lemma JoinParts<T>(s: seq<T>)
    requires |s| >= 32
    ensures var n := |s|;
      s == s[..8] + s[8..n - 24] + s[n - 24..n - 16] + s[n - 16..n - 8] + s[n - 8..]
  {
    var n := |s|;
    var t := s[..8] + s[8..n - 24] + s[n - 24..n - 16] + s[n - 16..n - 8] + s[n - 8..];
    assert forall k | 0 <= k < n :: t[k] == s[k];
  }

  /** The four `long` fields of an encoded block, by position. */
  lemma EncodedBlockFields(payload: seq<byte>)
    requires |payload| <= INT_MAX - 32
    ensures var b := EncodeSigningBlock(payload); var n := |b|;
      && b[..8] == EncodeLE(|payload| + 24, 8)
      && b[8..n - 24] == payload
      && b[n - 24..n - 16] == EncodeLE(|payload| + 24, 8)
      && b[n - 16..n - 8] == EncodeLE(APK_SIG_BLOCK_MAGIC_LO, 8)
      && b[n - 8..] == EncodeLE(APK_SIG_BLOCK_MAGIC_HI, 8)
  {
    var size := |payload| + 24;
    PartsOf(EncodeLE(size, 8), payload, EncodeLE(size, 8),
            EncodeLE(APK_SIG_BLOCK_MAGIC_LO, 8), EncodeLE(APK_SIG_BLOCK_MAGIC_HI, 8));
  }

  /** The `long` fields of a block, read at block offsets: the two size fields and the
      two magic halves. */
  predicate BlockLongs(b: seq<byte>)
  {
    && |b| >= APK_SIG_BLOCK_MIN_SIZE
    && LongAt(b, 0) == |b| - 8
    && LongAt(b, |b| - 24) == |b| - 8
    && LongAt(b, |b| - 16) == APK_SIG_BLOCK_MAGIC_LO
    && LongAt(b, |b| - 8) == APK_SIG_BLOCK_MAGIC_HI
  }

  /** An encoded block carries its size twice and the magic. */
  lemma EncodedBlockLongs(payload: seq<byte>)
    requires |payload| <= INT_MAX - 32
    ensures BlockLongs(EncodeSigningBlock(payload))
  {
    var b := EncodeSigningBlock(payload);
    var n := |b|;
    EncodedBlockFields(payload);
    LongAtNonNegative(b, 0, n - 8);
    LongAtNonNegative(b, n - 24, n - 8);
    LongAtNonNegative(b, n - 16, APK_SIG_BLOCK_MAGIC_LO);
    LongAtNonNegative(b, n - 8, APK_SIG_BLOCK_MAGIC_HI);
  }

  /** A `long` field read as a non-negative value is that value's encoding. */
  lemma FieldOfLong(b: seq<byte>, i: nat, v: nat)
    requires i + 8 <= |b| && v <= LONG_MAX
    requires LongAt(b, i) == v
    ensures b[i..i + 8] == EncodeLE(v, 8)
  {
    LongAtNonNegative(b, i, v);
  }

  /** A sequence of at least 32 elements is rebuilt from its four 8-element fields and
      what lies between the first two. */
  lemma Rejoin<T>(b: seq<T>, first: seq<T>, second: seq<T>, third: seq<T>, fourth: seq<T>)
    requires |b| >= 32
    requires b[0..8] == first && b[|b| - 24..|b| - 16] == second
    requires b[|b| - 16..|b| - 8] == third && b[|b| - 8..|b|] == fourth
    ensures b == first + b[8..|b| - 24] + second + third + fourth
  {
    JoinParts(b);
    assert b[..8] == b[0..8];
    assert b[|b| - 8..] == b[|b| - 8..|b|];
  }

  /** A block whose `long` fields are in place is the encoding of the bytes between its
      leading size field and its footer. */
  lemma BlockOfLongs(b: seq<byte>)
    requires BlockLongs(b)
    requires |b| <= INT_MAX
    ensures b == EncodeSigningBlock(b[8..|b| - 24])
  {
    var n := |b|;
    var size := EncodeLE(n - 8, 8);
    FieldOfLong(b, 0, n - 8);
    FieldOfLong(b, n - 24, n - 8);
    FieldOfLong(b, n - 16, APK_SIG_BLOCK_MAGIC_LO);
    FieldOfLong(b, n - 8, APK_SIG_BLOCK_MAGIC_HI);
    Rejoin(b, size, size, EncodeLE(APK_SIG_BLOCK_MAGIC_LO, 8), EncodeLE(APK_SIG_BLOCK_MAGIC_HI, 8));
  }

  /** A `long` inside an embedded block reads the same at file and block offsets. */
  lemma LongInside(file: seq<byte>, offset: nat, b: seq<byte>, i: nat)
    requires offset + |b| <= |file| && file[offset..offset + |b|] == b
    requires i + 8 <= |b|
    ensures LongAt(file, offset + i) == LongAt(b, i)
  {
    SliceOfSlice(file, offset, offset + |b|, i, i + 8);
  }

  /** The locator's acceptance condition, read at block offsets. */
  lemma BlockBeforeIsBlockLongs(file: seq<byte>, offset: nat, cd: nat)
    requires offset + APK_SIG_BLOCK_MIN_SIZE <= cd <= |file|
    requires cd - offset <= INT_MAX
    ensures var b := file[offset..cd];
      BlockLongs(b) <==> SigningBlockBefore(file, cd) && offset == cd - BlockSize(file, cd) - 8
  {
    var b := file[offset..cd];
    var n := |b|;
    LongInside(file, offset, b, 0);
    LongInside(file, offset, b, n - 24);
    LongInside(file, offset, b, n - 16);
    LongInside(file, offset, b, n - 8);
  }

  /** A file whose bytes from `offset` to the central directory have their `long` fields
      in place yields exactly those bytes as the block. */
  lemma LocateBlockAt(file: seq<byte>, offset: nat, cd: Int64)
    requires offset + APK_SIG_BLOCK_MIN_SIZE <= cd <= |file|
    requires cd - offset <= INT_MAX
    requires BlockLongs(file[offset..cd])
    ensures FindApkSigningBlock(file, cd) == Ok(SigningBlockAt(Wrap(file[offset..cd], LittleEndian), offset))
  {
    BlockBeforeIsBlockLongs(file, offset, cd);
    FindApkSigningBlockSpec(file, cd);
  }

  /** Writer then locator: a file holding an encoded block right before the central
      directory yields that block and its offset. */
  lemma LocateEncodedBlock(file: seq<byte>, offset: nat, payload: seq<byte>)
    requires |payload| <= INT_MAX - 32
    requires offset + |payload| + 32 <= |file| && offset + |payload| + 32 <= LONG_MAX
    requires file[offset..offset + |payload| + 32] == EncodeSigningBlock(payload)
    ensures FindApkSigningBlock(file, offset + |payload| + 32)
      == Ok(SigningBlockAt(Wrap(EncodeSigningBlock(payload), LittleEndian), offset))
  {
    EncodedBlockLongs(payload);
    LocateBlockAt(file, offset, offset + |payload| + 32);
  }

  /** Locator then writer: every block the locator accepts is the encoding of the pair
      bytes it holds, so nothing about it goes unchecked but the pairs. */
  lemma LocatedBlockIsEncoded(file: seq<byte>, centralDirOffset: Int64)
    requires FindApkSigningBlock(file, centralDirOffset).Ok?
    ensures var b := FindApkSigningBlock(file, centralDirOffset).value.block;
      && Capacity(b) >= APK_SIG_BLOCK_MIN_SIZE
      && b.data == EncodeSigningBlock(PairsRegion(b))
  {
    var at := FindApkSigningBlock(file, centralDirOffset).value;
    FindApkSigningBlockSpec(file, centralDirOffset);
    BlockBeforeIsBlockLongs(file, at.offset, centralDirOffset);
    BlockOfLongs(at.block.data);
  }

  /** `getCentralDirOffset(eocd, eocdOffset)`, given the two End of Central Directory
      fields the ZIP utilities read (both unsigned 32-bit, widened to `long`): the Central
      Directory must end exactly where that record starts. */
  function GetCentralDirOffset(centralDirOffset: UInt32, centralDirSize: UInt32, eocdOffset: Int64): (r: Result<Int64>)
    ensures r.Ok? <==> centralDirOffset + centralDirSize == eocdOffset
    ensures r.Ok? ==> r.value == centralDirOffset
    ensures r.Err? ==> r.error.SignatureNotFound?
  {
    if centralDirOffset > eocdOffset then Err(SignatureNotFound(CentralDirOutOfRange))
    else if centralDirOffset + centralDirSize != eocdOffset then
      Err(SignatureNotFound(CentralDirNotFollowedByEocd))
    else Ok(centralDirOffset)
  }

  /** The End of Central Directory record and its offset in the file. */
  datatype EocdAt = EocdAt(eocd: ByteBuffer, offset: Int64)

  /** What the ZIP utilities report about the file: the End of Central Directory record
      (if one was found), whether a ZIP64 locator precedes it, and its Central Directory
      offset and size fields. */
  datatype ZipView = ZipView(eocd: Option<EocdAt>, zip64LocatorPresent: bool,
                             centralDirOffset: UInt32, centralDirSize: UInt32)

  /** `SignatureInfo`: the scheme block and where things are in the file. */
  datatype SignatureInfo = SignatureInfo(signatureBlock: ByteBuffer, apkSigningBlockOffset: Int64,
                                         centralDirOffset: Int64, eocdOffset: Int64, eocd: ByteBuffer)

  /** `findSignature(apk, blockId)`. */
  function FindSignature(file: seq<byte>, zip: ZipView, blockId: Int32): (r: Result<SignatureInfo>)
    ensures zip.eocd.None? ==> r == Err(SignatureNotFound(EocdNotFound))
    ensures zip.eocd.Some? && zip.zip64LocatorPresent ==> r == Err(SignatureNotFound(Zip64NotSupported))
    ensures r.Ok? ==> zip.eocd.Some? && var info := r.value;
      && info.eocdOffset == zip.eocd.value.offset && info.eocd == zip.eocd.value.eocd
      && info.centralDirOffset == zip.centralDirOffset
      && info.centralDirOffset + zip.centralDirSize == info.eocdOffset
      && 0 <= info.apkSigningBlockOffset
      && info.apkSigningBlockOffset + APK_SIG_BLOCK_MIN_SIZE <= info.centralDirOffset <= |file|
      && info.centralDirOffset - info.apkSigningBlockOffset <= INT_MAX
  {
    match zip.eocd
    case None => Err(SignatureNotFound(EocdNotFound))
    case Some(EocdAt(eocd, eocdOffset)) =>
      if zip.zip64LocatorPresent then Err(SignatureNotFound(Zip64NotSupported))
      else
        var centralDirOffset :- GetCentralDirOffset(zip.centralDirOffset, zip.centralDirSize, eocdOffset);
        var SigningBlockAt(apkSigningBlock, apkSigningBlockOffset) :- FindApkSigningBlock(file, centralDirOffset);
        var apkSignatureSchemeBlock :- FindApkSignatureSchemeBlock(apkSigningBlock, blockId);
        Ok(SignatureInfo(apkSignatureSchemeBlock, apkSigningBlockOffset, centralDirOffset, eocdOffset, eocd))
  }

  /** `findSignature` succeeds exactly when the central directory is consistent, a signing
      block sits right before it and that block holds a pair with the id; the result is
      that block's scheme-block lookup. */
  lemma FindSignatureSpec(file: seq<byte>, zip: ZipView, blockId: Int32)
    requires zip.eocd.Some? && !zip.zip64LocatorPresent
    ensures var r := FindSignature(file, zip, blockId);
      var cd := zip.centralDirOffset;
      && (r.Ok? ==> SigningBlockBefore(file, cd))
      && (r.Ok? ==> r.value.apkSigningBlockOffset == cd - BlockSize(file, cd) - 8)
      && (r.Ok? <==> (&& cd + zip.centralDirSize == zip.eocd.value.offset
                      && SigningBlockBefore(file, cd)
                      && FindApkSignatureSchemeBlock(
                           Wrap(file[cd - BlockSize(file, cd) - 8..cd], LittleEndian), blockId).Ok?))
      && (r.Ok? ==> FindApkSignatureSchemeBlock(
                      Wrap(file[r.value.apkSigningBlockOffset..cd], LittleEndian), blockId)
                    == Ok(r.value.signatureBlock))
  {
    var cd := zip.centralDirOffset;
    if cd + zip.centralDirSize == zip.eocd.value.offset {
      FindApkSigningBlockSpec(file, cd);
    }
  }

  /** Once the block is located, `findSignature` is the scheme-block lookup in it. */
  lemma FindSignatureAt(file: seq<byte>, zip: ZipView, blockId: Int32, at: SigningBlockAt)
    requires zip.eocd.Some? && !zip.zip64LocatorPresent
    requires zip.centralDirOffset + zip.centralDirSize == zip.eocd.value.offset
    requires FindApkSigningBlock(file, zip.centralDirOffset) == Ok(at)
    ensures FindSignature(file, zip, blockId)
      == (var block :- FindApkSignatureSchemeBlock(at.block, blockId);
          Ok(SignatureInfo(block, at.offset, zip.centralDirOffset, zip.eocd.value.offset, zip.eocd.value.eocd)))
  {
  }

  /** The pair bytes of an encoded block are the payload it was written around. */
  lemma PairsRegionOfEncoded(payload: seq<byte>)
    requires |payload| <= INT_MAX - 32
    ensures PairsRegion(Wrap(EncodeSigningBlock(payload), LittleEndian)) == payload
  {
    EncodedBlockFields(payload);
  }

  /** End to end: in a file holding an encoded signing block right before a consistent
      central directory, `findSignature` returns the value of the first pair with the
      requested id, and the block's offset. */
  lemma FindSignatureInEncodedApk(file: seq<byte>, offset: nat, payload: seq<byte>, zip: ZipView,
                                  blockId: Int32, ps: seq<IdValuePair>, p: IdValuePair, rest: seq<byte>)
    requires FirstMatch(payload, blockId, ps, p, rest)
    requires |payload| <= INT_MAX - 32
    requires zip.eocd.Some? && !zip.zip64LocatorPresent
    requires zip.centralDirOffset == offset + |payload| + 32 <= |file|
    requires zip.centralDirOffset + zip.centralDirSize == zip.eocd.value.offset
    requires file[offset..zip.centralDirOffset] == EncodeSigningBlock(payload)
    ensures FindSignature(file, zip, blockId)
      == Ok(SignatureInfo(Wrap(p.value, LittleEndian), offset, zip.centralDirOffset,
                          zip.eocd.value.offset, zip.eocd.value.eocd))
  {
    var at := SigningBlockAt(Wrap(EncodeSigningBlock(payload), LittleEndian), offset);
    LocateEncodedBlock(file, offset, payload);
    FindSignatureAt(file, zip, blockId, at);
    PairsRegionOfEncoded(payload);
    FindSchemeBlockReturnsFirstMatch(at.block, blockId, ps, p, rest);
  }
}
