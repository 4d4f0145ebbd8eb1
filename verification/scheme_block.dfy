/** The scheme-block extractor (`findApkSignatureSchemeBlock`): the APK Signing Block's
    payload is a sequence of ID/value pairs, each laid out as
    `u64 length | u32 id | value` where `length` counts the id and the value. The
    extractor returns the value of the first pair carrying the requested id. */
module SchemeBlock {
  import opened Results
  import opened ByteCodec
  import opened Buffers

  datatype IdValuePair = IdValuePair(id: Int32, value: seq<byte>)

  /** A pair whose length field fits the `int` range the reader accepts. */
  predicate WellSized(p: IdValuePair)
  {
    |p.value| <= INT_MAX - 4
  }

  /** The writer's layout of one pair. */
  function EncodePair(p: IdValuePair): (r: seq<byte>)
    ensures |r| == 12 + |p.value|
  {
    EncodeLE(|p.value| + 4, 8) + EncodeInt(p.id, LittleEndian) + p.value
  }

  function EncodePairs(ps: seq<IdValuePair>): seq<byte>
  {
    if |ps| == 0 then [] else EncodePair(ps[0]) + EncodePairs(ps[1..])
  }

  /** `content` starts with the pairs `ps`, none of which carries `blockId`, followed by the
      pair `p`, which does. */
  ghost predicate FirstMatch(content: seq<byte>, blockId: Int32, ps: seq<IdValuePair>, p: IdValuePair, rest: seq<byte>)
  {
    && (forall q :: q in ps ==> WellSized(q) && q.id != blockId)
    && WellSized(p)
    && p.id == blockId
    && content == EncodePairs(ps) + EncodePair(p) + rest
  }

  /** The fixed part of one entry as the scan reads it: the length field (which counts the
      id and the value), the id, and the buffer positioned at the value. */
  datatype EntryHeader = EntryHeader(len: Int32, id: Int32, atValue: ByteBuffer)

  /** An entry header whose value lies within the buffer it was read from. */
  predicate ValidHeader(h: EntryHeader)
  {
    4 <= h.len && h.len - 4 <= Remaining(h.atValue)
  }

  /** The bounds-checked head of one loop iteration of `findApkSignatureSchemeBlock`:
      `entry` is the 1-based number of the entry being read. */
  function ReadEntryHeader(pairs: ByteBuffer, entry: int): (r: Result<EntryHeader>)
    ensures r.Err? ==> (r.error == SignatureNotFound(EntryTooShort(entry))
                     || r.error == SignatureNotFound(EntrySizeOutOfRange(entry)))
    ensures r.Ok? ==> ValidHeader(r.value) && r.value.atValue == pairs.(position := pairs.position + 12)
  {
    if Remaining(pairs) < 8 then Err(SignatureNotFound(EntryTooShort(entry)))
    else
      var Step(lenLong, p1) := GetLong(pairs).value;
      if lenLong < 4 || lenLong > INT_MAX then Err(SignatureNotFound(EntrySizeOutOfRange(entry)))
      else
        var len: Int32 := lenLong;
        if len > Remaining(p1) then Err(SignatureNotFound(EntrySizeOutOfRange(entry)))
        else
          var Step(id, p2) := GetInt(p1).value;
          Ok(EntryHeader(len, id, p2))
  }

  /** What an accepted header holds: the little-endian length field, which must lie in
      `[4, remaining - 8]`, and the `int` after it. */
  lemma HeaderFields(pairs: ByteBuffer, entry: int)
    ensures ReadEntryHeader(pairs, entry).Ok? <==> (Remaining(pairs) >= 8
      && 4 <= DecodeLong(pairs.data[pairs.position..pairs.position + 8], pairs.order) <= Remaining(pairs) - 8)
    ensures ReadEntryHeader(pairs, entry).Ok? ==>
      var h := ReadEntryHeader(pairs, entry).value;
      && h.len == DecodeLong(pairs.data[pairs.position..pairs.position + 8], pairs.order)
      && h.id == NextInt(pairs.(position := pairs.position + 8))
  {
  }

  /** The loop of `findApkSignatureSchemeBlock`, one entry per call; `entryCount` is the
      number of entries already visited. The result is the header of the first entry with
      the requested id. */
  function ScanPairs(pairs: ByteBuffer, blockId: Int32, entryCount: nat): (r: Result<EntryHeader>)
    ensures r.Err? ==> r.error.SignatureNotFound?
    ensures r.Ok? ==> ValidHeader(r.value) && r.value.id == blockId
    ensures r.Ok? ==> var b := r.value.atValue;
      && b.data == pairs.data && b.order == pairs.order && b.limit == pairs.limit
      && b.position >= pairs.position + 12
    decreases Remaining(pairs)
  {
    if !HasRemaining(pairs) then Err(SignatureNotFound(NoBlockWithId(blockId)))
    else
      var h :- ReadEntryHeader(pairs, entryCount + 1);
      if h.id == blockId then Ok(h)
      else
        // `nextEntryPos`: the position after the length field plus `len`, which cannot
        // overflow because it is at most the limit
        ScanPairs(NextEntry(pairs, h), blockId, entryCount + 1)
  }

  /** `pairs.position(nextEntryPos)` after reading header `h` from `pairs`. */
  function NextEntry(pairs: ByteBuffer, h: EntryHeader): (r: ByteBuffer)
    requires ValidHeader(h) && h.atValue == pairs.(position := pairs.position + 12)
    ensures r == pairs.(position := pairs.position + 8 + h.len)
  {
    SetPosition(h.atValue, pairs.position + 8 + h.len).value
  }

  /** `getByteBuffer(pairs, len - 4)` at the matching entry: its value as a fresh buffer. */
  function EntryValue(h: EntryHeader): (r: ByteBuffer)
    requires ValidHeader(h)
    ensures r == Wrap(RemainingBytes(h.atValue)[..h.len - 4], h.atValue.order)
  {
    GetByteBuffer(h.atValue, h.len - 4).value.value
  }

  /** `findApkSignatureSchemeBlock(apkSigningBlock, blockId)`: only the bytes
      `[8, capacity - 24)` between the two size fields are scanned. */
  function FindApkSignatureSchemeBlock(apkSigningBlock: ByteBuffer, blockId: Int32): (r: Result<ByteBuffer>)
    ensures apkSigningBlock.order != LittleEndian ==> r == Err(IllegalArgument(NotLittleEndian))
    ensures apkSigningBlock.order == LittleEndian && Capacity(apkSigningBlock) < 32
      ==> r == Err(IllegalArgument(SliceEndBeforeStart))
    ensures r.Err? ==> r.error.SignatureNotFound? || r.error.IllegalArgument?
    ensures r.Ok? ==> r.value.order == LittleEndian && r.value.position == 0 && r.value.limit == |r.value.data|
    ensures r.Ok? ==> |r.value.data| + 36 <= Capacity(apkSigningBlock)
  {
    if apkSigningBlock.order != LittleEndian then Err(IllegalArgument(NotLittleEndian))
    else
      var Step(pairs, _) :- SliceFromTo(apkSigningBlock, 8, Capacity(apkSigningBlock) - 24);
      var h :- ScanPairs(pairs, blockId, 0);
      Ok(EntryValue(h))
  }

  lemma ConcatAssoc(a: seq<byte>, b: seq<byte>, c: seq<byte>, d: seq<byte>)
    ensures a + b + c + d == a + (b + c + d)
  {
  }

  /** Field boundaries in a concatenation of an 8-byte, a 4-byte and two further parts. */
  lemma FieldsOf(a: seq<byte>, b: seq<byte>, c: seq<byte>, tail: seq<byte>)
    requires |a| == 8 && |b| == 4
    ensures var s := a + b + c + tail;
      && s[..8] == a && s[8..12] == b && s[12..12 + |c|] == c && s[12 + |c|..] == tail
  {
    var s := a + b + c + tail;
    assert s == a + (b + (c + tail));
    assert s[8..] == b + (c + tail);
    assert s[12..] == c + tail;
  }

  /** The bytes of an encoded pair, field by field. */
  lemma PairLayout(q: IdValuePair, tail: seq<byte>)
    ensures var s := EncodePair(q) + tail;
      && s[..8] == EncodeLE(|q.value| + 4, 8)
      && s[8..12] == EncodeInt(q.id, LittleEndian)
      && s[12..12 + |q.value|] == q.value
      && s[12 + |q.value|..] == tail
  {
    FieldsOf(EncodeLE(|q.value| + 4, 8), EncodeInt(q.id, LittleEndian), q.value, tail);
  }

  /** A well-formed header read from the front of `s` is followed by its pair's value:
      the front of `s` is the encoding of that pair. */
  lemma PairOfLayout(s: seq<byte>, len: Int32, id: Int32) returns (q: IdValuePair)
    requires 4 <= len && 8 + len <= |s|
    requires DecodeLong(s[..8], LittleEndian) == len
    requires DecodeInt(s[8..12], LittleEndian) == id
    ensures q == IdValuePair(id, s[12..8 + len]) && WellSized(q)
    ensures s == EncodePair(q) + s[12 + |q.value|..]
  {
    q := IdValuePair(id, s[12..8 + len]);
    assert |q.value| + 4 == len;
    LongAtNonNegative(s, 0, len);
    assert s[..8] == s[0..8];
    DecodeIntInjective(s[8..12], EncodeInt(id, LittleEndian), LittleEndian);
    SplitFields(s, 8 + len);
  }

  /** A sequence cut at the boundaries of a pair's fields. */
  lemma SplitFields(s: seq<byte>, end: nat)
    requires 12 <= end <= |s|
    ensures s == s[..8] + s[8..12] + s[12..end] + s[end..]
  {
  }

  /** The bytes at the cursor, seen through `RemainingBytes`. */
  lemma RemainingAt(b: ByteBuffer, i: nat, j: nat)
    requires i <= j <= Remaining(b)
    ensures RemainingBytes(b)[i..j] == b.data[b.position + i..b.position + j]
    ensures RemainingBytes(b)[i..] == RemainingBytes(b.(position := b.position + i))
  {
    SliceOfSlice(b.data, b.position, b.limit, i, j);
  }

  /** The fields of an encoded pair read back as its length field, id and value. */
  lemma PairHeader(q: IdValuePair, tail: seq<byte>)
    requires WellSized(q)
    ensures var s := EncodePair(q) + tail;
      && DecodeLong(s[..8], LittleEndian) == |q.value| + 4
      && DecodeInt(s[8..12], LittleEndian) == q.id
      && s[12..12 + |q.value|] == q.value
      && s[12 + |q.value|..] == tail
  {
    var s := EncodePair(q) + tail;
    PairLayout(q, tail);
    LongAtNonNegative(s, 0, |q.value| + 4);
  }

  /** The header the scan reads from a buffer whose next bytes hold length field `len`
      and id `id`. */
  lemma HeaderOf(b: ByteBuffer, entry: int, len: int, id: Int32)
    requires 4 <= len && 8 + len <= Remaining(b)
    requires DecodeLong(b.data[b.position..b.position + 8], b.order) == len
    requires NextInt(b.(position := b.position + 8)) == id
    ensures ReadEntryHeader(b, entry) == Ok(EntryHeader(len, id, b.(position := b.position + 12)))
  {
    HeaderFields(b, entry);
  }

  /** Reading the header of an encoded pair recovers its length field and id, and skipping
      the pair leaves what follows it. */
  lemma DecodeEncodedPair(b: ByteBuffer, entry: int, q: IdValuePair, tail: seq<byte>)
    requires b.order == LittleEndian && WellSized(q)
    requires RemainingBytes(b) == EncodePair(q) + tail
    ensures ReadEntryHeader(b, entry) == Ok(EntryHeader(|q.value| + 4, q.id, b.(position := b.position + 12)))
    ensures b.data[b.position + 12..b.position + 12 + |q.value|] == q.value
    ensures RemainingBytes(b.(position := b.position + 12 + |q.value|)) == tail
  {
    var n := |q.value|;
    PairHeader(q, tail);
    RemainingAt(b, 0, 8);
    RemainingAt(b, 8, 12);
    RemainingAt(b, 12, 12 + n);
    RemainingAt(b, 12 + n, 12 + n);
    HeaderOf(b, entry, n + 4, q.id);
  }

  /** An accepted header, in terms of the bytes at the cursor. */
  lemma AcceptedHeader(b: ByteBuffer, entry: int, h: EntryHeader)
    requires b.order == LittleEndian && ReadEntryHeader(b, entry) == Ok(h)
    ensures 8 + h.len <= Remaining(b)
    ensures DecodeLong(RemainingBytes(b)[..8], LittleEndian) == h.len
    ensures DecodeInt(RemainingBytes(b)[8..12], LittleEndian) == h.id
  {
    HeaderFields(b, entry);
    assert RemainingBytes(b)[..8] == b.data[b.position..b.position + 8];
    assert RemainingBytes(b)[8..12] == b.data[b.position + 8..b.position + 12];
  }

  /** Recovering a pair from an entry header the scan has just accepted: the inverse of
      `DecodeEncodedPair`. */
  lemma EncodeDecodedPair(b: ByteBuffer, entry: int) returns (q: IdValuePair, next: ByteBuffer)
    requires b.order == LittleEndian
    requires ReadEntryHeader(b, entry).Ok?
    ensures var h := ReadEntryHeader(b, entry).value;
      && WellSized(q) && q.id == h.id && |q.value| + 4 == h.len
      && next == b.(position := b.position + 12 + |q.value|)
    ensures RemainingBytes(b) == EncodePair(q) + RemainingBytes(next)
  {
    var h := ReadEntryHeader(b, entry).value;
    AcceptedHeader(b, entry, h);
    q := PairOfLayout(RemainingBytes(b), h.len, h.id);
    next := b.(position := b.position + 12 + |q.value|);
    RemainingAt(b, 12 + |q.value|, 12 + |q.value|);
  }

  /** The scan stops at an encoded pair carrying the requested id and yields its value. */
  lemma ScanHit(pairs: ByteBuffer, blockId: Int32, entryCount: nat, q: IdValuePair, tail: seq<byte>)
    requires pairs.order == LittleEndian && WellSized(q) && q.id == blockId
    requires RemainingBytes(pairs) == EncodePair(q) + tail
    ensures ScanPairs(pairs, blockId, entryCount).Ok?
    ensures EntryValue(ScanPairs(pairs, blockId, entryCount).value) == Wrap(q.value, LittleEndian)
  {
    DecodeEncodedPair(pairs, entryCount + 1, q, tail);
    var h := ReadEntryHeader(pairs, entryCount + 1).value;
    assert RemainingBytes(h.atValue)[..|q.value|] == q.value;
  }

  /** One unfolding of the scan past an accepted entry header with another id. */
  lemma ScanPastHeader(pairs: ByteBuffer, blockId: Int32, entryCount: nat, h: EntryHeader)
    requires ReadEntryHeader(pairs, entryCount + 1) == Ok(h) && h.id != blockId
    ensures ScanPairs(pairs, blockId, entryCount) == ScanPairs(NextEntry(pairs, h), blockId, entryCount + 1)
  {
  }

  /** The header the scan reads from an encoded pair, and where the next entry starts. */
  lemma SkipHeader(pairs: ByteBuffer, entry: int, q: IdValuePair, tail: seq<byte>) returns (h: EntryHeader)
    requires pairs.order == LittleEndian && WellSized(q)
    requires RemainingBytes(pairs) == EncodePair(q) + tail
    ensures ReadEntryHeader(pairs, entry) == Ok(h) && h.id == q.id
    ensures Remaining(pairs) >= 12 + |q.value|
    ensures NextEntry(pairs, h) == pairs.(position := pairs.position + 12 + |q.value|)
    ensures RemainingBytes(pairs.(position := pairs.position + 12 + |q.value|)) == tail
  {
    DecodeEncodedPair(pairs, entry, q, tail);
    h := EntryHeader(|q.value| + 4, q.id, pairs.(position := pairs.position + 12));
  }

  /** The scan skips an encoded pair carrying another id and goes on after it. */
  lemma ScanSkip(pairs: ByteBuffer, blockId: Int32, entryCount: nat, q: IdValuePair, tail: seq<byte>)
    requires pairs.order == LittleEndian && WellSized(q) && q.id != blockId
    requires RemainingBytes(pairs) == EncodePair(q) + tail
    ensures Remaining(pairs) >= 12 + |q.value|
    ensures RemainingBytes(pairs.(position := pairs.position + 12 + |q.value|)) == tail
    ensures ScanPairs(pairs, blockId, entryCount)
      == ScanPairs(pairs.(position := pairs.position + 12 + |q.value|), blockId, entryCount + 1)
  {
    var h := SkipHeader(pairs, entryCount + 1, q, tail);
    ScanPastHeader(pairs, blockId, entryCount, h);
  }

  /** Completeness: when the scanned bytes are well-formed pairs up to and including the
      first pair with the requested id, the scan yields exactly that pair's value. Pairs
      before it are skipped one at a time. */
  lemma {:induction false} ScanFindsFirstMatch(pairs: ByteBuffer, blockId: Int32, entryCount: nat,
                                               ps: seq<IdValuePair>, p: IdValuePair, rest: seq<byte>)
    requires pairs.order == LittleEndian
    requires FirstMatch(RemainingBytes(pairs), blockId, ps, p, rest)
    ensures ScanPairs(pairs, blockId, entryCount).Ok?
    ensures EntryValue(ScanPairs(pairs, blockId, entryCount).value) == Wrap(p.value, LittleEndian)
    decreases |ps|
  {
    if |ps| == 0 {
      assert RemainingBytes(pairs) == EncodePair(p) + rest;
      ScanHit(pairs, blockId, entryCount, p, rest);
    } else {
      var q := ps[0];
      var tail := EncodePairs(ps[1..]) + EncodePair(p) + rest;
      var next := pairs.(position := pairs.position + 12 + |q.value|);
      assert q.id != blockId && WellSized(q) by {
        assert q in ps;
      }
      assert RemainingBytes(pairs) == EncodePair(q) + tail by {
        assert EncodePairs(ps) == EncodePair(q) + EncodePairs(ps[1..]);
        ConcatAssoc(EncodePair(q), EncodePairs(ps[1..]), EncodePair(p), rest);
      }
      ScanSkip(pairs, blockId, entryCount, q, tail);
      assert FirstMatch(RemainingBytes(next), blockId, ps[1..], p, rest) by {
        forall q' | q' in ps[1..]
          ensures WellSized(q') && q'.id != blockId
        {
          assert q' in ps;
        }
      }
      ScanFindsFirstMatch(next, blockId, entryCount + 1, ps[1..], p, rest);
    }
  }

  /** When the scanned bytes are well-formed pairs none of which carries the requested id,
      the scan reports that id as not found. */
  lemma {:induction false} ScanReportsMissingId(pairs: ByteBuffer, blockId: Int32, entryCount: nat,
                                                ps: seq<IdValuePair>)
    requires pairs.order == LittleEndian
    requires forall q :: q in ps ==> WellSized(q) && q.id != blockId
    requires RemainingBytes(pairs) == EncodePairs(ps)
    ensures ScanPairs(pairs, blockId, entryCount) == Err(SignatureNotFound(NoBlockWithId(blockId)))
    decreases |ps|
  {
    if |ps| > 0 {
      var q := ps[0];
      assert q in ps;
      ScanSkip(pairs, blockId, entryCount, q, EncodePairs(ps[1..]));
      var next := pairs.(position := pairs.position + 12 + |q.value|);
      forall q' | q' in ps[1..]
        ensures WellSized(q') && q'.id != blockId
      {
        assert q' in ps;
      }
      ScanReportsMissingId(next, blockId, entryCount + 1, ps[1..]);
    }
  }

  /** A pair with another id in front of a first match keeps it the first match. */
  lemma FirstMatchCons(blockId: Int32, q: IdValuePair, tail: seq<byte>, ps: seq<IdValuePair>, p: IdValuePair, rest: seq<byte>)
    requires WellSized(q) && q.id != blockId
    requires FirstMatch(tail, blockId, ps, p, rest)
    ensures FirstMatch(EncodePair(q) + tail, blockId, [q] + ps, p, rest)
  {
    var ps' := [q] + ps;
    assert ps'[0] == q && ps'[1..] == ps;
    assert EncodePairs(ps') == EncodePair(q) + EncodePairs(ps);
    ConcatAssoc(EncodePair(q), EncodePairs(ps), EncodePair(p), rest);
  }

  /** Soundness: a successful scan yields the value of the first pair with the requested
      id, every pair before it being well-formed and carrying another id. */
  lemma {:induction false} ScanResultIsFirstMatch(pairs: ByteBuffer, blockId: Int32, entryCount: nat)
    returns (ps: seq<IdValuePair>, p: IdValuePair, rest: seq<byte>)
    requires pairs.order == LittleEndian
    requires ScanPairs(pairs, blockId, entryCount).Ok?
    ensures FirstMatch(RemainingBytes(pairs), blockId, ps, p, rest)
    ensures EntryValue(ScanPairs(pairs, blockId, entryCount).value) == Wrap(p.value, LittleEndian)
    decreases Remaining(pairs)
  {
    var q, next := EncodeDecodedPair(pairs, entryCount + 1);
    if q.id == blockId {
      ScanHit(pairs, blockId, entryCount, q, RemainingBytes(next));
      ps, p, rest := [], q, RemainingBytes(next);
    } else {
      ScanSkip(pairs, blockId, entryCount, q, RemainingBytes(next));
      var ps1;
      ps1, p, rest := ScanResultIsFirstMatch(next, blockId, entryCount + 1);
      FirstMatchCons(blockId, q, RemainingBytes(next), ps1, p, rest);
      ps := [q] + ps1;
    }
  }

  /** The bytes the extractor scans: those between the leading size field and the trailing
      size field and magic. */
  function PairsRegion(block: ByteBuffer): (r: seq<byte>)
    requires Capacity(block) >= 32
    ensures |r| + 32 == Capacity(block)
  {
    block.data[8..|block.data| - 24]
  }

  /** The scan buffer the extractor carves out of a well-sized, little-endian block. */
  lemma PairsSlice(block: ByteBuffer, blockId: Int32)
    requires block.order == LittleEndian && Capacity(block) >= 32
    ensures SliceFromTo(block, 8, Capacity(block) - 24).Ok?
    ensures var pairs := SliceFromTo(block, 8, Capacity(block) - 24).value.value;
      && pairs == Wrap(PairsRegion(block), LittleEndian)
      && RemainingBytes(pairs) == PairsRegion(block)
      && FindApkSignatureSchemeBlock(block, blockId)
         == (var h :- ScanPairs(pairs, blockId, 0); Ok(EntryValue(h)))
  {
  }

  /** Completeness of the extractor: the value of the first pair with the requested id. */
  lemma FindSchemeBlockReturnsFirstMatch(block: ByteBuffer, blockId: Int32,
                                         ps: seq<IdValuePair>, p: IdValuePair, rest: seq<byte>)
    requires block.order == LittleEndian && Capacity(block) >= 32
    requires FirstMatch(PairsRegion(block), blockId, ps, p, rest)
    ensures FindApkSignatureSchemeBlock(block, blockId) == Ok(Wrap(p.value, LittleEndian))
  {
    PairsSlice(block, blockId);
    ScanFindsFirstMatch(Wrap(PairsRegion(block), LittleEndian), blockId, 0, ps, p, rest);
  }

  /** Soundness of the extractor: whatever it returns is the value of the first pair with
      the requested id in the scanned region. */
  lemma FindSchemeBlockResultIsFirstMatch(block: ByteBuffer, blockId: Int32)
    returns (ps: seq<IdValuePair>, p: IdValuePair, rest: seq<byte>)
    requires FindApkSignatureSchemeBlock(block, blockId).Ok?
    ensures Capacity(block) >= 32 && FirstMatch(PairsRegion(block), blockId, ps, p, rest)
    ensures FindApkSignatureSchemeBlock(block, blockId) == Ok(Wrap(p.value, LittleEndian))
  {
    PairsSlice(block, blockId);
    ps, p, rest := ScanResultIsFirstMatch(Wrap(PairsRegion(block), LittleEndian), blockId, 0);
  }

  /** A region of well-formed pairs without the requested id makes the extractor report
      the id as missing. */
  lemma FindSchemeBlockReportsMissingId(block: ByteBuffer, blockId: Int32, ps: seq<IdValuePair>)
    requires block.order == LittleEndian && Capacity(block) >= 32
    requires forall q :: q in ps ==> WellSized(q) && q.id != blockId
    requires PairsRegion(block) == EncodePairs(ps)
    ensures FindApkSignatureSchemeBlock(block, blockId) == Err(SignatureNotFound(NoBlockWithId(blockId)))
  {
    PairsSlice(block, blockId);
    ScanReportsMissingId(Wrap(PairsRegion(block), LittleEndian), blockId, 0, ps);
  }

  /** The extractor reads nothing outside the scanned region: blocks that agree there (and
      in length and byte order) give the same answer, whatever their size fields, magic,
      position or limit hold. */
  lemma SchemeBlockReadsOnlyPairs(b1: ByteBuffer, b2: ByteBuffer, blockId: Int32)
    requires b1.order == b2.order && Capacity(b1) == Capacity(b2) >= 32
    requires PairsRegion(b1) == PairsRegion(b2)
    ensures FindApkSignatureSchemeBlock(b1, blockId) == FindApkSignatureSchemeBlock(b2, blockId)
  {
    if b1.order == LittleEndian {
      PairsSlice(b1, blockId);
      PairsSlice(b2, blockId);
    }
  }
}
