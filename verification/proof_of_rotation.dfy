/** `verifyProofOfRotationStruct`: a proof-of-rotation record is a 4-byte version code
    followed by a chain of levels, each
      length-prefixed level:
        length-prefixed signed data: length-prefixed certificate, u32 signed algorithm id
        u32 flags
        u32 algorithm id for the next level's signature
        length-prefixed signature over this level's signed data
    Every level after the first is signed with the previous level's certificate under the
    algorithm the previous level names, and repeats that algorithm id inside its signed
    data. The verifier returns the certificates and flags, oldest first.

    The signature primitive and the certificate factory are parameters. */
module ProofOfRotation {
  import opened Results
  import opened ByteCodec
  import opened Buffers
  import opened Algorithms
  import opened VerbatimCertificate

  /** What `Signature.verify` does: accept, reject, or throw one of the JCA exceptions
      (unknown algorithm, bad key, bad parameters, signature failure). */
  datatype VerifyOutcome = Verified | NotVerified | VerifyFailed

  /** `Signature.getInstance(alg.name)`, `initVerify(key)`, `setParameter`, `update(data)`,
      `verify(signature)`. */
  type SignatureVerifier = (JcaSignature, PublicKey, seq<byte>, seq<byte>) -> VerifyOutcome

  /** `CertificateFactory.generateCertificate`; `None` stands for a CertificateException. */
  type CertificateDecoder = seq<byte> -> Option<X509Certificate>

  /** `VerifiedProofOfRotation`. */
  datatype VerifiedProofOfRotation = VerifiedProofOfRotation(certs: seq<VerbatimX509Certificate>, flagsList: seq<Int32>)

  /** The fields of one level as read, before any check. */
  datatype LevelFrame = LevelFrame(signedData: ByteBuffer, flags: Int32, sigAlgorithm: Int32, signature: seq<byte>)

  /** The loop's local state: the 1-based level counter, the previous level's next-signature
      algorithm id and certificate, and the lists built so far (the certificate history set
      holds exactly the certificates of `certs`). */
  datatype Lineage = Lineage(levelCount: nat, lastSigAlgorithm: Int32, lastCert: Option<VerbatimX509Certificate>,
                             certs: seq<VerbatimX509Certificate>, flagsList: seq<Int32>)

  const INITIAL: Lineage := Lineage(0, -1, None, [], [])

  /** Read the fields inside one level's slice: the signed-data slice, the flags, the next
      algorithm id and the signature. Bytes after the signature are ignored. */
  function ReadLevelFields(level: ByteBuffer): (r: Result<LevelFrame>)
    ensures r.Ok? ==> r.value.signedData.position == 0
  {
    var Step(signedData, level1) :- GetLengthPrefixedSlice(level);
    var Step(flags, level2) :- GetInt(level1);
    var Step(sigAlgorithm, level3) :- GetInt(level2);
    var Step(signature, _) :- ReadLengthPrefixedByteArray(level3);
    Ok(LevelFrame(signedData, flags, sigAlgorithm, signature))
  }

  /** Read one level's frame: the level slice, then its fields. The record's cursor moves
      past the level. */
  function ReadLevelFrame(por: ByteBuffer): (r: Result<Step<LevelFrame>>)
    ensures r.Ok? ==> && r.value.buffer.data == por.data && r.value.buffer.limit == por.limit
                      && r.value.buffer.order == por.order
                      && por.position + 4 <= r.value.buffer.position
    ensures r.Ok? ==> r.value.value.signedData.position == 0
  {
    var Step(level, rest) :- GetLengthPrefixedSlice(por);
    var frame :- ReadLevelFields(level);
    Ok(Step(frame, rest))
  }

  /** Re-read the signed data from its start: the encoded certificate, then the algorithm id
      it was signed with. */
  function ReadSignedData(signedData: ByteBuffer): Result<(seq<byte>, Int32)>
  {
    var Step(encodedCert, rest) :- ReadLengthPrefixedByteArray(Rewind(signedData));
    var Step(signedSigAlgorithm, _) :- GetInt(rest);
    Ok((encodedCert, signedSigAlgorithm))
  }

  /** The verification of a level's signed data with the previous level's certificate; the
      signed data comes back consumed, as `Signature.update` leaves it. An unknown previous
      algorithm id raises IllegalArgumentException from the table lookup. */
  function VerifyWithPrevious(levelCount: nat, lastSigAlgorithm: Int32, lastCert: VerbatimX509Certificate,
                              frame: LevelFrame, verify: SignatureVerifier): (r: Result<ByteBuffer>)
    ensures r.Ok? <==> (&& JcaSignatureAlgorithm(lastSigAlgorithm).Ok?
                        && verify(JcaSignatureAlgorithm(lastSigAlgorithm).value, GetPublicKey(lastCert),
                                  RemainingBytes(frame.signedData), frame.signature) == Verified)
    ensures r.Ok? ==> Rewind(r.value) == Rewind(frame.signedData)
    ensures r.Err? ==> r.error.IllegalArgument? || r.error.Security?
  {
    var sigAlgParams :- JcaSignatureAlgorithm(lastSigAlgorithm);
    match verify(sigAlgParams, GetPublicKey(lastCert), RemainingBytes(frame.signedData), frame.signature)
    case VerifyFailed => Err(Security(SignatureFailure(levelCount)))
    case NotVerified => Err(Security(SignatureNotVerified(levelCount)))
    case Verified => Ok(Drain(frame.signedData))
  }

  /** The encodings of a list of certificates. */
  function Encodings(certs: seq<VerbatimX509Certificate>): (r: seq<seq<byte>>)
    ensures |r| == |certs|
    ensures forall i :: 0 <= i < |certs| ==> r[i] == GetEncoded(certs[i])
  {
    if |certs| == 0 then [] else Encodings(certs[..|certs| - 1]) + [GetEncoded(certs[|certs| - 1])]
  }

  /** `HashSet.contains` over the certificate history: some member with the same hash code
      that the candidate `equals`. */
  predicate HistoryContains(history: seq<VerbatimX509Certificate>, cert: VerbatimX509Certificate)
  {
    exists i :: 0 <= i < |history| && ArraysHashCode(GetEncoded(history[i])) == ArraysHashCode(GetEncoded(cert))
                                    && Equals(cert, VerbatimObject(history[i]))
  }

  /** The history finds a certificate exactly when its encoding is among the recorded ones:
      equal certificates hash alike, so the hash never hides a duplicate. */
  lemma HistoryContainsEncoding(history: seq<VerbatimX509Certificate>, cert: VerbatimX509Certificate)
    ensures HistoryContains(history, cert) <==> GetEncoded(cert) in Encodings(history)
  {
    var es := Encodings(history);
    if GetEncoded(cert) in es {
      var i :| 0 <= i < |es| && es[i] == GetEncoded(cert);
      EqualCertificatesHashAlike(history[i], NO_HASH, cert, NO_HASH);
      assert Equals(cert, VerbatimObject(history[i]));
    }
  }

  /** One level after its frame was read: the signature check against the previous level,
      the signed data, the algorithm id link, the certificate and the duplicate check. */
  function VerifyLevel(st: Lineage, frame: LevelFrame, verify: SignatureVerifier, decode: CertificateDecoder)
    : (r: Result<Lineage>)
    ensures r.Ok? ==> r.value.lastSigAlgorithm == frame.sigAlgorithm && r.value.lastCert.Some?
    ensures r.Ok? ==> r.value.certs == st.certs + [r.value.lastCert.value]
    ensures r.Ok? ==> r.value.flagsList == st.flagsList + [frame.flags]
    ensures r.Ok? ==> r.value.levelCount == st.levelCount
  {
    var signedData :-
      if st.lastCert.None? then Ok(frame.signedData)
      else VerifyWithPrevious(st.levelCount, st.lastSigAlgorithm, st.lastCert.value, frame, verify);
    var (encodedCert, signedSigAlgorithm) :- ReadSignedData(signedData);
    if st.lastCert.Some? && st.lastSigAlgorithm != signedSigAlgorithm then
      Err(Security(AlgorithmIdMismatch(st.levelCount)))
    else
      match decode(encodedCert)
      case None => Err(Security(CertificateDecodeFailed(st.levelCount)))
      case Some(wrapped) =>
        var lastCert := NewVerbatim(wrapped, encodedCert);
        if HistoryContains(st.certs, lastCert) then Err(Security(DuplicateCertificate(st.levelCount)))
        else Ok(Lineage(st.levelCount, frame.sigAlgorithm, Some(lastCert),
                        st.certs + [lastCert], st.flagsList + [frame.flags]))
  }

  /** The `while (porBuf.hasRemaining())` loop. */
  function VerifyLevels(por: ByteBuffer, st: Lineage, verify: SignatureVerifier, decode: CertificateDecoder)
    : (r: Result<Lineage>)
    ensures r.Ok? ==> |r.value.certs| == |r.value.flagsList| - |st.flagsList| + |st.certs|
    ensures r.Ok? ==> st.flagsList <= r.value.flagsList
    decreases Remaining(por)
  {
    if !HasRemaining(por) then Ok(st)
    else
      var frameRead := ReadLevelFrame(por);
      if frameRead.Err? then Err(frameRead.error)
      else
        var next := VerifyLevel(st.(levelCount := st.levelCount + 1), frameRead.value.value, verify, decode);
        if next.Err? then Err(next.error)
        else VerifyLevels(frameRead.value.buffer, next.value, verify, decode)
  }

  /** The `catch` of IOException and BufferUnderflowException: both become one IOException.
      IllegalArgumentException is not caught, and SecurityException passes through. */
  function RewrapParseFailure(e: Error): (r: Error)
    ensures r != BufferUnderflow
    ensures r.IOError? ==> r == IOError(MalformedRotationRecord)
    ensures !e.IOError? && e != BufferUnderflow ==> r == e
  {
    if e.IOError? || e == BufferUnderflow then IOError(MalformedRotationRecord) else e
  }

  /** `verifyProofOfRotationStruct(porBuf, certFactory)`. */
  function VerifyProofOfRotationStruct(porBuf: ByteBuffer, verify: SignatureVerifier, decode: CertificateDecoder)
    : (r: Result<VerifiedProofOfRotation>)
    ensures Remaining(porBuf) < 4 ==> r == Err(IOError(MalformedRotationRecord))
    ensures r.Err? ==> r.error != BufferUnderflow && (r.error.IOError? ==> r.error == IOError(MalformedRotationRecord))
    ensures r.Ok? ==> |r.value.certs| == |r.value.flagsList|
  {
    var run := (var Step(_, levels) :- GetInt(porBuf); VerifyLevels(levels, INITIAL, verify, decode));
    match run
    case Ok(st) => Ok(VerifiedProofOfRotation(st.certs, st.flagsList))
    case Err(e) => Err(RewrapParseFailure(e))
  }

  // ---------------------------------------------------------------------------------------
  // The record as data, and the lineages the verifier accepts.

  /** One level with its signed data decoded. */
  datatype Level = Level(signedData: seq<byte>, flags: Int32, sigAlgorithm: Int32, signature: seq<byte>,
                         encodedCert: seq<byte>, signedSigAlgorithm: Int32)

  /** Parse every level without checking anything about the chain. */
  function ParseLevels(por: ByteBuffer): (r: Result<seq<Level>>)
    ensures r.Err? ==> !r.error.Security?
    decreases Remaining(por)
  {
    if !HasRemaining(por) then Ok([])
    else
      var Step(frame, rest) :- ReadLevelFrame(por);
      var (encodedCert, signedSigAlgorithm) :- ReadSignedData(frame.signedData);
      var levels :- ParseLevels(rest);
      Ok([Level(RemainingBytes(frame.signedData), frame.flags, frame.sigAlgorithm, frame.signature,
                encodedCert, signedSigAlgorithm)] + levels)
  }

  /** The previous level as the next one's check needs it. */
  datatype Prev = Prev(sigAlgorithm: Int32, key: PublicKey)

  /** A level is linked to the previous one when the previous level's algorithm is known,
      its key verifies this level's signature over the signed data, and the signed data
      names the same algorithm. The first level needs nothing. */
  predicate LinkHolds(prev: Option<Prev>, level: Level, verify: SignatureVerifier)
  {
    prev.Some? ==>
      && JcaSignatureAlgorithm(prev.value.sigAlgorithm).Ok?
      && verify(JcaSignatureAlgorithm(prev.value.sigAlgorithm).value, prev.value.key,
                level.signedData, level.signature) == Verified
      && level.signedSigAlgorithm == prev.value.sigAlgorithm
  }

  /** The lineage a chain of levels stands for, if every level is linked to its
      predecessor, decodes, and repeats no encoding seen before it. */
  function LineageOf(prev: Option<Prev>, seen: seq<seq<byte>>, levels: seq<Level>,
                     verify: SignatureVerifier, decode: CertificateDecoder): Option<VerifiedProofOfRotation>
    decreases |levels|
  {
    if |levels| == 0 then Some(VerifiedProofOfRotation([], []))
    else
      var level := levels[0];
      if !LinkHolds(prev, level, verify) || level.encodedCert in seen then None
      else
        match decode(level.encodedCert)
        case None => None
        case Some(wrapped) =>
          var cert := NewVerbatim(wrapped, level.encodedCert);
          match LineageOf(Some(Prev(level.sigAlgorithm, wrapped.publicKey)), seen + [level.encodedCert],
                          levels[1..], verify, decode)
          case None => None
          case Some(rest) => Some(VerifiedProofOfRotation([cert] + rest.certs, [level.flags] + rest.flagsList))
  }

  /** The previous level as the loop state records it. */
  function PrevOf(st: Lineage): Option<Prev>
  {
    if st.lastCert.Some? then Some(Prev(st.lastSigAlgorithm, GetPublicKey(st.lastCert.value))) else None
  }

  /** The level a frame and its signed data stand for. */
  function LevelOf(frame: LevelFrame, signed: (seq<byte>, Int32)): Level
  {
    Level(RemainingBytes(frame.signedData), frame.flags, frame.sigAlgorithm, frame.signature, signed.0, signed.1)
  }

  /** The encodings of a list grown by one certificate. */
  lemma EncodingsAppend(certs: seq<VerbatimX509Certificate>, cert: VerbatimX509Certificate)
    ensures Encodings(certs + [cert]) == Encodings(certs) + [GetEncoded(cert)]
  {
    assert (certs + [cert])[..|certs|] == certs;
  }

  /** One level is accepted exactly when its signed data parses, it is linked to the
      previous level, its certificate decodes and its encoding is new. */
  lemma VerifyLevelAccepts(st: Lineage, frame: LevelFrame, verify: SignatureVerifier, decode: CertificateDecoder)
    ensures var r := VerifyLevel(st, frame, verify, decode);
      var signed := ReadSignedData(frame.signedData);
      && (r.Ok? <==> (&& signed.Ok?
                      && LinkHolds(PrevOf(st), LevelOf(frame, signed.value), verify)
                      && signed.value.0 !in Encodings(st.certs)
                      && decode(signed.value.0).Some?))
      && (r.Ok? ==> && r.value.lastCert == Some(NewVerbatim(decode(signed.value.0).value, signed.value.0))
                    && PrevOf(r.value) == Some(Prev(frame.sigAlgorithm, decode(signed.value.0).value.publicKey)))
  {
    var signed := ReadSignedData(frame.signedData);
    if st.lastCert.Some? {
      var v := VerifyWithPrevious(st.levelCount, st.lastSigAlgorithm, st.lastCert.value, frame, verify);
      if v.Ok? {
        assert ReadSignedData(v.value) == signed;
      }
    }
    if signed.Ok? && decode(signed.value.0).Some? {
      HistoryContainsEncoding(st.certs, NewVerbatim(decode(signed.value.0).value, signed.value.0));
    }
  }

  /** The first level of a chain and the rest. */
  lemma LineageOfCons(prev: Option<Prev>, seen: seq<seq<byte>>, level: Level, levels: seq<Level>,
                      verify: SignatureVerifier, decode: CertificateDecoder)
    ensures LineageOf(prev, seen, [level] + levels, verify, decode)
      == if !LinkHolds(prev, level, verify) || level.encodedCert in seen || decode(level.encodedCert).None? then None
         else
           var wrapped := decode(level.encodedCert).value;
           match LineageOf(Some(Prev(level.sigAlgorithm, wrapped.publicKey)), seen + [level.encodedCert],
                           levels, verify, decode)
           case None => None
           case Some(rest) => Some(VerifiedProofOfRotation([NewVerbatim(wrapped, level.encodedCert)] + rest.certs,
                                                           [level.flags] + rest.flagsList))
  {
    assert ([level] + levels)[0] == level;
    assert ([level] + levels)[1..] == levels;
  }

  /** The loop run from `st` over `por` accepts exactly when the levels parse and form a
      lineage from the state, and then appends that lineage's certificates and flags. */
  ghost predicate AcceptsLineages(por: ByteBuffer, st: Lineage, verify: SignatureVerifier, decode: CertificateDecoder)
  {
    var r := VerifyLevels(por, st, verify, decode);
    var parsed := ParseLevels(por);
    && (r.Ok? <==> parsed.Ok? && LineageOf(PrevOf(st), Encodings(st.certs), parsed.value, verify, decode).Some?)
    && (r.Ok? ==> var lineage := LineageOf(PrevOf(st), Encodings(st.certs), parsed.value, verify, decode).value;
                  r.value.certs == st.certs + lineage.certs && r.value.flagsList == st.flagsList + lineage.flagsList)
  }

  /** A turn of the loop whose level is rejected ends the loop with that level's error. */
  lemma VerifyLevelsStepErr(por: ByteBuffer, st: Lineage, frame: LevelFrame, rest: ByteBuffer,
                            verify: SignatureVerifier, decode: CertificateDecoder)
    requires HasRemaining(por) && ReadLevelFrame(por) == Ok(Step(frame, rest))
    requires VerifyLevel(st.(levelCount := st.levelCount + 1), frame, verify, decode).Err?
    ensures VerifyLevels(por, st, verify, decode)
            == Err(VerifyLevel(st.(levelCount := st.levelCount + 1), frame, verify, decode).error)
  {
    hide ReadLevelFrame, VerifyLevel;
  }

  /** A turn of the loop whose level is accepted continues from the extended state. */
  lemma VerifyLevelsStepOk(por: ByteBuffer, st: Lineage, frame: LevelFrame, rest: ByteBuffer,
                           verify: SignatureVerifier, decode: CertificateDecoder)
    requires HasRemaining(por) && ReadLevelFrame(por) == Ok(Step(frame, rest))
    requires VerifyLevel(st.(levelCount := st.levelCount + 1), frame, verify, decode).Ok?
    ensures VerifyLevels(por, st, verify, decode)
            == VerifyLevels(rest, VerifyLevel(st.(levelCount := st.levelCount + 1), frame, verify, decode).value,
                            verify, decode)
  {
    hide ReadLevelFrame, VerifyLevel;
  }

  /** One level of the parse, given the frame it reads. */
  lemma ParseLevelsStep(por: ByteBuffer, frame: LevelFrame, rest: ByteBuffer)
    requires HasRemaining(por) && ReadLevelFrame(por) == Ok(Step(frame, rest))
    ensures var signed := ReadSignedData(frame.signedData);
      var levels := ParseLevels(rest);
      ParseLevels(por)
      == if signed.Err? then Err(signed.error)
         else if levels.Err? then Err(levels.error)
         else Ok([LevelOf(frame, signed.value)] + levels.value)
  {
    hide ReadLevelFrame, ReadSignedData;
  }

  /** A level whose signed data reads, ahead of levels that parse, parses as that level
      ahead of them. */
  lemma ParseLevelsCons(por: ByteBuffer, frame: LevelFrame, rest: ByteBuffer, signed: (seq<byte>, Int32),
                        levels: seq<Level>)
    requires HasRemaining(por) && ReadLevelFrame(por) == Ok(Step(frame, rest))
    requires ReadSignedData(frame.signedData) == Ok(signed) && ParseLevels(rest) == Ok(levels)
    ensures ParseLevels(por) == Ok([LevelOf(frame, signed)] + levels)
  {
    ParseLevelsStep(por, frame, rest);
    hide ReadLevelFrame, ReadSignedData, ParseLevels;
  }

  /** A level the loop rejects is one that does not parse or does not extend the lineage. */
  lemma RejectedLevel(por: ByteBuffer, st: Lineage, frame: LevelFrame, rest: ByteBuffer,
                      verify: SignatureVerifier, decode: CertificateDecoder)
    requires HasRemaining(por) && ReadLevelFrame(por) == Ok(Step(frame, rest))
    requires VerifyLevel(st.(levelCount := st.levelCount + 1), frame, verify, decode).Err?
    ensures AcceptsLineages(por, st, verify, decode)
  {
    var st1 := st.(levelCount := st.levelCount + 1);
    VerifyLevelsStepErr(por, st, frame, rest, verify, decode);
    ParseLevelsStep(por, frame, rest);
    VerifyLevelAccepts(st1, frame, verify, decode);
    var signed := ReadSignedData(frame.signedData);
    var restParsed := ParseLevels(rest);
    if signed.Ok? && restParsed.Ok? {
      LineageOfCons(PrevOf(st), Encodings(st.certs), LevelOf(frame, signed.value), restParsed.value, verify, decode);
    }
  }

  /** Appending one element and then a list is prepending that element to the list. */
  lemma AppendOneThen<T>(a: seq<T>, x: T, b: seq<T>)
    ensures (a + [x]) + b == a + ([x] + b)
  {
  }

  /** A level the loop accepts extends the lineage by its certificate. */
  lemma AcceptedLevel(por: ByteBuffer, st: Lineage, frame: LevelFrame, rest: ByteBuffer,
                      verify: SignatureVerifier, decode: CertificateDecoder)
    requires HasRemaining(por) && ReadLevelFrame(por) == Ok(Step(frame, rest))
    requires VerifyLevel(st.(levelCount := st.levelCount + 1), frame, verify, decode).Ok?
    requires AcceptsLineages(rest, VerifyLevel(st.(levelCount := st.levelCount + 1), frame, verify, decode).value,
                             verify, decode)
    ensures AcceptsLineages(por, st, verify, decode)
  {
    var st1 := st.(levelCount := st.levelCount + 1);
    var next := VerifyLevel(st1, frame, verify, decode).value;
    VerifyLevelsStepOk(por, st, frame, rest, verify, decode);
    assert VerifyLevels(por, st, verify, decode) == VerifyLevels(rest, next, verify, decode);
    VerifyLevelAccepts(st1, frame, verify, decode);
    assert PrevOf(st1) == PrevOf(st) && st1.certs == st.certs;
    var signed := ReadSignedData(frame.signedData).value;
    var wrapped := decode(signed.0).value;
    var cert := NewVerbatim(wrapped, signed.0);
    var level := LevelOf(frame, signed);
    var prev := Some(Prev(frame.sigAlgorithm, wrapped.publicKey));
    var seen := Encodings(st.certs) + [signed.0];
    assert next.certs == st.certs + [cert];
    EncodingsAppend(st.certs, cert);
    assert Encodings(next.certs) == seen;
    assert PrevOf(next) == prev;
    ParseLevelsStep(por, frame, rest);
    var restParsed := ParseLevels(rest);
    if restParsed.Ok? {
      assert ParseLevels(por) == Ok([level] + restParsed.value);
      LineageOfCons(PrevOf(st), Encodings(st.certs), level, restParsed.value, verify, decode);
      var tail := LineageOf(prev, seen, restParsed.value, verify, decode);
      assert LineageOf(PrevOf(st), Encodings(st.certs), [level] + restParsed.value, verify, decode)
        == if tail.None? then None
           else Some(VerifiedProofOfRotation([cert] + tail.value.certs, [frame.flags] + tail.value.flagsList));
      assert VerifyLevels(rest, next, verify, decode).Ok? <==> tail.Some?;
      if tail.Some? {
        var r := VerifyLevels(rest, next, verify, decode).value;
        assert r.certs == (st.certs + [cert]) + tail.value.certs;
        AppendOneThen(st.certs, cert, tail.value.certs);
        assert r.flagsList == (st.flagsList + [frame.flags]) + tail.value.flagsList;
        AppendOneThen(st.flagsList, frame.flags, tail.value.flagsList);
      }
    } else {
      assert ParseLevels(por).Err?;
      assert VerifyLevels(rest, next, verify, decode).Err?;
    }
  }

  /** The loop accepts exactly the records whose levels parse and form a lineage from its
      state, and appends that lineage's certificates and flags to the state's lists. */
  lemma {:induction false} VerifyLevelsAcceptsLineages(por: ByteBuffer, st: Lineage,
                                                       verify: SignatureVerifier, decode: CertificateDecoder)
    ensures AcceptsLineages(por, st, verify, decode)
    decreases Remaining(por)
  {
    if HasRemaining(por) {
      var frameRead := ReadLevelFrame(por);
      if frameRead.Ok? {
        var Step(frame, rest) := frameRead.value;
        var st1 := st.(levelCount := st.levelCount + 1);
        var v := VerifyLevel(st1, frame, verify, decode);
        if v.Ok? {
          VerifyLevelsAcceptsLineages(rest, v.value, verify, decode);
          AcceptedLevel(por, st, frame, rest, verify, decode);
        } else {
          RejectedLevel(por, st, frame, rest, verify, decode);
        }
      }
    }
  }

  /** The verifier accepts exactly the records with a version code whose levels parse and
      form a lineage, and returns that lineage: one certificate and one flags word per
      level, in order, each level after the first signed by its predecessor under the
      algorithm its predecessor names, no encoding twice. */
  lemma VerifyAcceptsExactlyLineages(porBuf: ByteBuffer, verify: SignatureVerifier, decode: CertificateDecoder)
    ensures var r := VerifyProofOfRotationStruct(porBuf, verify, decode);
      && (r.Ok? <==> (&& Remaining(porBuf) >= 4
                      && ParseLevels(porBuf.(position := porBuf.position + 4)).Ok?
                      && LineageOf(None, [], ParseLevels(porBuf.(position := porBuf.position + 4)).value,
                                   verify, decode).Some?))
      && (r.Ok? ==> r.value == LineageOf(None, [], ParseLevels(porBuf.(position := porBuf.position + 4)).value,
                                         verify, decode).value)
  {
    if Remaining(porBuf) >= 4 {
      VerifyLevelsAcceptsLineages(porBuf.(position := porBuf.position + 4), INITIAL, verify, decode);
    }
  }

  /** A record holding only its version code verifies, with no certificates and no flags. */
  lemma VersionOnlyRecord(porBuf: ByteBuffer, verify: SignatureVerifier, decode: CertificateDecoder)
    requires Remaining(porBuf) == 4
    ensures VerifyProofOfRotationStruct(porBuf, verify, decode) == Ok(VerifiedProofOfRotation([], []))
  {
  }

  /** A negative level length is not a parse failure: the IllegalArgumentException of the
      length-prefix reader escapes the verifier's IOException handler unchanged. */
  lemma NegativeLevelLengthEscapes(porBuf: ByteBuffer, verify: SignatureVerifier, decode: CertificateDecoder)
    requires Remaining(porBuf) >= 8
    requires NextInt(porBuf.(position := porBuf.position + 4)) < 0
    ensures VerifyProofOfRotationStruct(porBuf, verify, decode) == Err(IllegalArgument(NegativeLengthPrefix))
  {
  }

  /** What an accepted lineage guarantees: one certificate and one flags word per level, in
      order, each certificate carrying its level's encoding; no encoding seen before or
      repeated; the first level linked to the given predecessor and every later level to
      the level before it. */
  lemma {:induction false} LineageProperties(prev: Option<Prev>, seen: seq<seq<byte>>, levels: seq<Level>,
                                             verify: SignatureVerifier, decode: CertificateDecoder)
    requires LineageOf(prev, seen, levels, verify, decode).Some?
    ensures var v := LineageOf(prev, seen, levels, verify, decode).value;
      && |v.certs| == |v.flagsList| == |levels|
      && (forall i :: 0 <= i < |levels| ==>
            && v.flagsList[i] == levels[i].flags
            && GetEncoded(v.certs[i]) == levels[i].encodedCert
            && levels[i].encodedCert !in seen)
      && (forall i, j :: 0 <= i < j < |levels| ==> levels[i].encodedCert != levels[j].encodedCert)
      && (|levels| > 0 ==> LinkHolds(prev, levels[0], verify))
      && (forall i :: 0 < i < |levels| ==>
            LinkHolds(Some(Prev(levels[i - 1].sigAlgorithm, GetPublicKey(v.certs[i - 1]))), levels[i], verify))
    decreases |levels|
  {
    if |levels| > 0 {
      var level := levels[0];
      var wrapped := decode(level.encodedCert).value;
      var next := Some(Prev(level.sigAlgorithm, wrapped.publicKey));
      LineageProperties(next, seen + [level.encodedCert], levels[1..], verify, decode);
    }
  }

  // ---------------------------------------------------------------------------------------
  // The record as a writer lays it out, and what the readers make of it.

  /** The fields a writer puts into one level: the certificate and the algorithm id inside
      the signed data, the flags, the algorithm id for the next level, and the signature. */
  datatype LevelRecord = LevelRecord(encodedCert: seq<byte>, signedSigAlgorithm: Int32, flags: Int32,
                                     sigAlgorithm: Int32, signature: seq<byte>)

  /** The encoded size of a level, its own length prefix included. */
  function LevelSize(l: LevelRecord): nat
  {
    28 + |l.encodedCert| + |l.signature|
  }

  /** The encoded size of a chain of levels. */
  function LevelsSize(ls: seq<LevelRecord>): nat
  {
    if |ls| == 0 then 0 else LevelSize(ls[0]) + LevelsSize(ls[1..])
  }

  /** The signed data: the length-prefixed certificate, then the algorithm id. */
  function EncodeSignedData(encodedCert: seq<byte>, signedSigAlgorithm: Int32, order: ByteOrder): (r: seq<byte>)
    requires |encodedCert| <= INT_MAX
    ensures |r| == 8 + |encodedCert|
  {
    LengthPrefixed(encodedCert, order) + EncodeInt(signedSigAlgorithm, order)
  }

  /** The inside of a level: the length-prefixed signed data, the flags, the next level's
      algorithm id, the length-prefixed signature. */
  function EncodeLevelBody(signedData: seq<byte>, flags: Int32, sigAlgorithm: Int32, signature: seq<byte>,
                           order: ByteOrder): (r: seq<byte>)
    requires |signedData| <= INT_MAX && |signature| <= INT_MAX
    ensures |r| == 16 + |signedData| + |signature|
  {
    LengthPrefixed(signedData, order) + EncodeInt(flags, order) + EncodeInt(sigAlgorithm, order)
      + LengthPrefixed(signature, order)
  }

  /** One level, length-prefixed as a whole. */
  function EncodeLevel(l: LevelRecord, order: ByteOrder): (r: seq<byte>)
    requires LevelSize(l) <= INT_MAX
    ensures |r| == LevelSize(l)
  {
    LengthPrefixed(EncodeLevelBody(EncodeSignedData(l.encodedCert, l.signedSigAlgorithm, order),
                                   l.flags, l.sigAlgorithm, l.signature, order), order)
  }

  /** A chain of levels, one after the other. */
  function EncodeLevels(ls: seq<LevelRecord>, order: ByteOrder): (r: seq<byte>)
    requires LevelsSize(ls) <= INT_MAX
    ensures |r| == LevelsSize(ls)
  {
    if |ls| == 0 then [] else EncodeLevel(ls[0], order) + EncodeLevels(ls[1..], order)
  }

  /** A whole record: the version code, then the levels. */
  function EncodeRecord(version: Int32, ls: seq<LevelRecord>, order: ByteOrder): (r: seq<byte>)
    requires 4 + LevelsSize(ls) <= INT_MAX
    ensures |r| == 4 + LevelsSize(ls)
  {
    EncodeInt(version, order) + EncodeLevels(ls, order)
  }

  /** The level the parser should make of a written level. */
  function LevelOfRecord(l: LevelRecord, order: ByteOrder): Level
    requires LevelSize(l) <= INT_MAX
  {
    Level(EncodeSignedData(l.encodedCert, l.signedSigAlgorithm, order), l.flags, l.sigAlgorithm, l.signature,
          l.encodedCert, l.signedSigAlgorithm)
  }

  /** The levels the parser should make of a written chain. */
  function LevelsOfRecords(ls: seq<LevelRecord>, order: ByteOrder): (r: seq<Level>)
    requires LevelsSize(ls) <= INT_MAX
    ensures |r| == |ls|
  {
    if |ls| == 0 then [] else [LevelOfRecord(ls[0], order)] + LevelsOfRecords(ls[1..], order)
  }

  /** Signed data that starts with the writer's layout reads as that certificate and
      algorithm id; bytes after it are ignored. */
  lemma ReadEncodedSignedData(signedData: ByteBuffer, encodedCert: seq<byte>, signedSigAlgorithm: Int32)
    requires |encodedCert| <= INT_MAX
    requires EncodeSignedData(encodedCert, signedSigAlgorithm, signedData.order) <= signedData.data[..signedData.limit]
    ensures ReadSignedData(signedData) == Ok((encodedCert, signedSigAlgorithm))
  {
    var b := Rewind(signedData);
    var n := |encodedCert|;
    var e := EncodeSignedData(encodedCert, signedSigAlgorithm, b.order);
    assert b.data[0..8 + n] == e;
    assert b.data[0..4 + n] == e[..4 + n] == LengthPrefixed(encodedCert, b.order);
    assert b.data[4 + n..8 + n] == e[4 + n..] == EncodeInt(signedSigAlgorithm, b.order);
    LengthPrefixedRoundTrip(b, encodedCert);
    GetIntOfEncoded(b.(position := 4 + n), signedSigAlgorithm);
  }

  /** Signed data the reader accepts starts with the writer's layout of what it read. */
  lemma SignedDataIsEncoded(signedData: ByteBuffer)
    requires ReadSignedData(signedData).Ok?
    ensures var (encodedCert, signedSigAlgorithm) := ReadSignedData(signedData).value;
      && |encodedCert| <= INT_MAX
      && EncodeSignedData(encodedCert, signedSigAlgorithm, signedData.order) <= signedData.data[..signedData.limit]
  {
    var b := Rewind(signedData);
    ReadLengthPrefixedLayout(b);
    var Step(encodedCert, b1) := ReadLengthPrefixedByteArray(b).value;
    var n := |encodedCert|;
    GetIntLayout(b1);
    assert b.data[0..8 + n] == b.data[0..4 + n] + b.data[4 + n..8 + n];
  }

  /** The signed data reads as a certificate and an algorithm id exactly when it starts with
      the writer's layout of them. */
  lemma SignedDataLayout(signedData: ByteBuffer, encodedCert: seq<byte>, signedSigAlgorithm: Int32)
    ensures ReadSignedData(signedData) == Ok((encodedCert, signedSigAlgorithm))
        <==> && |encodedCert| <= INT_MAX
             && EncodeSignedData(encodedCert, signedSigAlgorithm, signedData.order) <= signedData.data[..signedData.limit]
  {
    if ReadSignedData(signedData) == Ok((encodedCert, signedSigAlgorithm)) {
      SignedDataIsEncoded(signedData);
    }
    if |encodedCert| <= INT_MAX
       && EncodeSignedData(encodedCert, signedSigAlgorithm, signedData.order) <= signedData.data[..signedData.limit] {
      ReadEncodedSignedData(signedData, encodedCert, signedSigAlgorithm);
    }
  }

  /** The inside of a level that starts with the writer's layout of its fields reads as
      exactly those fields; bytes after them are ignored. */
  lemma ReadEncodedFields(level: seq<byte>, order: ByteOrder, signedData: seq<byte>, flags: Int32,
                          sigAlgorithm: Int32, signature: seq<byte>)
    requires |signedData| <= INT_MAX && |signature| <= INT_MAX && |level| <= INT_MAX
    requires EncodeLevelBody(signedData, flags, sigAlgorithm, signature, order) <= level
    ensures ReadLevelFields(Wrap(level, order)) == Ok(LevelFrame(Wrap(signedData, order), flags, sigAlgorithm, signature))
  {
    var n := |signedData|;
    var m := |signature|;
    var body := EncodeLevelBody(signedData, flags, sigAlgorithm, signature, order);
    var lp := LengthPrefixed(signedData, order);
    var ef := EncodeInt(flags, order);
    var ea := EncodeInt(sigAlgorithm, order);
    var ls := LengthPrefixed(signature, order);
    assert body == lp + ef + ea + ls;
    hide LengthPrefixed, EncodeInt, EncodeLevelBody;
    assert level[0..16 + n + m] == body;
    assert level[0..4 + n] == lp;
    assert level[4 + n..8 + n] == ef;
    assert level[8 + n..12 + n] == ea;
    assert level[12 + n..16 + n + m] == ls;
    var lv := Wrap(level, order);
    LengthPrefixedRoundTrip(lv, signedData);
    GetIntOfEncoded(lv.(position := 4 + n), flags);
    GetIntOfEncoded(lv.(position := 8 + n), sigAlgorithm);
    LengthPrefixedRoundTrip(lv.(position := 12 + n), signature);
  }

  /** Where the fields of a level the reader accepts sit inside it. */
  lemma LevelFieldsPieces(level: seq<byte>, order: ByteOrder)
    requires |level| <= INT_MAX && ReadLevelFields(Wrap(level, order)).Ok?
    ensures var frame := ReadLevelFields(Wrap(level, order)).value;
      var n := |frame.signedData.data|;
      var m := |frame.signature|;
      && frame.signedData == Wrap(frame.signedData.data, order)
      && 16 + n + m <= |level|
      && level[0..4 + n] == LengthPrefixed(frame.signedData.data, order)
      && level[4 + n..8 + n] == EncodeInt(frame.flags, order)
      && level[8 + n..12 + n] == EncodeInt(frame.sigAlgorithm, order)
      && level[12 + n..16 + n + m] == LengthPrefixed(frame.signature, order)
  {
    var lv := Wrap(level, order);
    GetLengthPrefixedLayout(lv);
    var Step(sd, l1) := GetLengthPrefixedSlice(lv).value;
    GetIntLayout(l1);
    var Step(flags, l2) := GetInt(l1).value;
    GetIntLayout(l2);
    var Step(sigAlgorithm, l3) := GetInt(l2).value;
    ReadLengthPrefixedLayout(l3);
    var Step(signature, _) := ReadLengthPrefixedByteArray(l3).value;
    assert ReadLevelFields(lv).value == LevelFrame(sd, flags, sigAlgorithm, signature);
  }

  /** Four adjacent pieces laid out as the writer lays out a level's inside form its prefix. */
  lemma PiecesFormBody(level: seq<byte>, order: ByteOrder, signedData: seq<byte>, flags: Int32,
                       sigAlgorithm: Int32, signature: seq<byte>)
    requires |signedData| <= INT_MAX && |signature| <= INT_MAX
    requires 16 + |signedData| + |signature| <= |level|
    requires level[0..4 + |signedData|] == LengthPrefixed(signedData, order)
    requires level[4 + |signedData|..8 + |signedData|] == EncodeInt(flags, order)
    requires level[8 + |signedData|..12 + |signedData|] == EncodeInt(sigAlgorithm, order)
    requires level[12 + |signedData|..16 + |signedData| + |signature|] == LengthPrefixed(signature, order)
    ensures EncodeLevelBody(signedData, flags, sigAlgorithm, signature, order) <= level
  {
    var n := |signedData|;
    var m := |signature|;
    assert EncodeLevelBody(signedData, flags, sigAlgorithm, signature, order)
        == LengthPrefixed(signedData, order) + EncodeInt(flags, order) + EncodeInt(sigAlgorithm, order)
           + LengthPrefixed(signature, order);
    hide LengthPrefixed, EncodeInt, EncodeLevelBody;
    FourPieces(level, 4 + n, 8 + n, 12 + n, 16 + n + m);
  }

  /** The inside of a level the reader accepts starts with the writer's layout of the fields
      it read. */
  lemma LevelFieldsLayout(level: seq<byte>, order: ByteOrder)
    requires |level| <= INT_MAX && ReadLevelFields(Wrap(level, order)).Ok?
    ensures var frame := ReadLevelFields(Wrap(level, order)).value;
      && frame.signedData == Wrap(RemainingBytes(frame.signedData), order)
      && EncodeLevelBody(RemainingBytes(frame.signedData), frame.flags, frame.sigAlgorithm, frame.signature,
                         order) <= level
  {
    hide ReadLevelFields;
    var frame := ReadLevelFields(Wrap(level, order)).value;
    LevelFieldsPieces(level, order);
    assert RemainingBytes(frame.signedData) == frame.signedData.data;
    PiecesFormBody(level, order, frame.signedData.data, frame.flags, frame.sigAlgorithm, frame.signature);
  }

  /** A level written with its fields, possibly followed by bytes the reader ignores, is read
      as exactly those fields, and the cursor moves past the level. */
  lemma ReadEncodedLevel(por: ByteBuffer, signedData: seq<byte>, flags: Int32, sigAlgorithm: Int32,
                         signature: seq<byte>, level: seq<byte>)
    requires |signedData| <= INT_MAX && |signature| <= INT_MAX && |level| <= INT_MAX
    requires EncodeLevelBody(signedData, flags, sigAlgorithm, signature, por.order) <= level
    requires por.position + 4 + |level| <= por.limit
    requires por.data[por.position..por.position + 4 + |level|] == LengthPrefixed(level, por.order)
    ensures ReadLevelFrame(por)
         == Ok(Step(LevelFrame(Wrap(signedData, por.order), flags, sigAlgorithm, signature),
                    por.(position := por.position + 4 + |level|)))
  {
    LengthPrefixedRoundTrip(por, level);
    ReadEncodedFields(level, por.order, signedData, flags, sigAlgorithm, signature);
    hide ReadLevelFields, GetLengthPrefixedSlice, EncodeLevelBody, LengthPrefixed;
  }

  /** A frame is read from the level slice the record's length prefix delimits. */
  lemma FrameFromLevelSlice(por: ByteBuffer)
    requires ReadLevelFrame(por).Ok?
    ensures GetLengthPrefixedSlice(por).Ok?
    ensures var Step(level, rest) := GetLengthPrefixedSlice(por).value;
      && ReadLevelFields(level) == Ok(ReadLevelFrame(por).value.value)
      && rest == ReadLevelFrame(por).value.buffer
  {
  }

  /** A level as the writer writes it is read as its fields, with the signed data as the
      writer lays it out. */
  lemma ReadWrittenLevel(por: ByteBuffer, l: LevelRecord)
    requires LevelSize(l) <= INT_MAX && por.position + LevelSize(l) <= por.limit
    requires por.data[por.position..por.position + LevelSize(l)] == EncodeLevel(l, por.order)
    ensures ReadLevelFrame(por)
         == Ok(Step(LevelFrame(Wrap(EncodeSignedData(l.encodedCert, l.signedSigAlgorithm, por.order), por.order),
                               l.flags, l.sigAlgorithm, l.signature),
                    por.(position := por.position + LevelSize(l))))
  {
    hide ReadLevelFrame;
    var signedData := EncodeSignedData(l.encodedCert, l.signedSigAlgorithm, por.order);
    var body := EncodeLevelBody(signedData, l.flags, l.sigAlgorithm, l.signature, por.order);
    ReadEncodedLevel(por, signedData, l.flags, l.sigAlgorithm, l.signature, body);
  }

  /** Every frame the reader accepts is laid out as the writer lays out a level: a length
      prefix over the level, whose bytes start with the signed data, the flags, the next
      level's algorithm id and the signature, in that order. */
  lemma ReadLevelFrameLayout(por: ByteBuffer, frame: LevelFrame, rest: ByteBuffer)
    requires ReadLevelFrame(por) == Ok(Step(frame, rest))
    ensures por.position + 4 <= rest.position <= |por.data| && |frame.signature| <= INT_MAX
    ensures por.position + 4 <= rest.position <= |por.data| && |frame.signature| <= INT_MAX ==>
      var level := por.data[por.position + 4..rest.position];
      && por.data[por.position..rest.position] == LengthPrefixed(level, por.order)
      && frame.signedData == Wrap(RemainingBytes(frame.signedData), por.order)
      && EncodeLevelBody(RemainingBytes(frame.signedData), frame.flags, frame.sigAlgorithm, frame.signature,
                         por.order) <= level
  {
    FrameFromLevelSlice(por);
    var Step(lv, rest0) := GetLengthPrefixedSlice(por).value;
    assert && lv == Wrap(lv.data, por.order) && rest == por.(position := por.position + 4 + |lv.data|)
           && rest.position <= por.limit
           && por.data[por.position..rest.position] == LengthPrefixed(lv.data, por.order) by {
      GetLengthPrefixedLayout(por);
    }
    assert && frame.signedData == Wrap(RemainingBytes(frame.signedData), por.order)
           && EncodeLevelBody(RemainingBytes(frame.signedData), frame.flags, frame.sigAlgorithm, frame.signature,
                              por.order) <= lv.data by {
      LevelFieldsLayout(lv.data, por.order);
    }
    assert lv.data == por.data[por.position + 4..rest.position] by {
      SliceOfSlice(por.data, por.position, por.limit, 4, 4 + |lv.data|);
    }
  }

  /** A written level ahead of levels that parse parses as the level the writer was given,
      ahead of them. */
  lemma ParseWrittenLevel(por: ByteBuffer, l: LevelRecord, levels: seq<Level>)
    requires LevelSize(l) <= INT_MAX && por.position + LevelSize(l) <= por.limit
    requires por.data[por.position..por.position + LevelSize(l)] == EncodeLevel(l, por.order)
    requires ParseLevels(por.(position := por.position + LevelSize(l))) == Ok(levels)
    ensures ParseLevels(por) == Ok([LevelOfRecord(l, por.order)] + levels)
  {
    hide ReadLevelFrame, ReadSignedData, ParseLevels, EncodeLevel, EncodeSignedData;
    var signedData := EncodeSignedData(l.encodedCert, l.signedSigAlgorithm, por.order);
    var rest := por.(position := por.position + LevelSize(l));
    var frame := LevelFrame(Wrap(signedData, por.order), l.flags, l.sigAlgorithm, l.signature);
    ReadWrittenLevel(por, l);
    ReadEncodedSignedData(frame.signedData, l.encodedCert, l.signedSigAlgorithm);
    assert RemainingBytes(frame.signedData) == signedData;
    ParseLevelsCons(por, frame, rest, (l.encodedCert, l.signedSigAlgorithm), levels);
  }

  /** A chain of written levels parses back to the levels the writer was given. */
  lemma {:induction false} ParseEncodedLevels(por: ByteBuffer, ls: seq<LevelRecord>)
    requires LevelsSize(ls) <= INT_MAX
    requires RemainingBytes(por) == EncodeLevels(ls, por.order)
    ensures ParseLevels(por) == Ok(LevelsOfRecords(ls, por.order))
    decreases |ls|
  {
    hide ReadLevelFrame, ReadSignedData, EncodeLevel, LevelOfRecord;
    if |ls| == 0 {
      assert !HasRemaining(por);
    } else {
      hide ParseLevels;
      var l := ls[0];
      var size := LevelSize(l);
      var rest := por.(position := por.position + size);
      assert && por.position + size <= por.limit
             && por.data[por.position..por.position + size] == EncodeLevel(l, por.order)
             && RemainingBytes(rest) == EncodeLevels(ls[1..], por.order) by {
        assert RemainingBytes(por) == EncodeLevel(l, por.order) + EncodeLevels(ls[1..], por.order);
        SliceOfSlice(por.data, por.position, por.limit, 0, size);
        SliceOfSlice(por.data, por.position, por.limit, size, por.limit - por.position);
      }
      hide EncodeLevels;
      var tail := LevelsOfRecords(ls[1..], por.order);
      assert ParseLevels(rest) == Ok(tail) by {
        ParseEncodedLevels(rest, ls[1..]);
      }
      ParseWrittenLevel(por, l, tail);
      assert LevelsOfRecords(ls, por.order) == [LevelOfRecord(l, por.order)] + tail;
    }
  }

  /** A written record verifies exactly when its levels form a lineage, and yields that
      lineage: the verifier checks each signature over exactly the signed data the writer
      put in the level. */
  lemma VerifyEncodedRecord(version: Int32, ls: seq<LevelRecord>, order: ByteOrder,
                            verify: SignatureVerifier, decode: CertificateDecoder)
    requires 4 + LevelsSize(ls) <= INT_MAX
    ensures var r := VerifyProofOfRotationStruct(Wrap(EncodeRecord(version, ls, order), order), verify, decode);
      var lineage := LineageOf(None, [], LevelsOfRecords(ls, order), verify, decode);
      && (r.Ok? <==> lineage.Some?)
      && (r.Ok? ==> r.value == lineage.value)
  {
    var porBuf := Wrap(EncodeRecord(version, ls, order), order);
    var levels := porBuf.(position := 4);
    assert RemainingBytes(levels) == EncodeLevels(ls, order);
    ParseEncodedLevels(levels, ls);
    VerifyAcceptsExactlyLineages(porBuf, verify, decode);
  }

  /** Every level the parser accepts holds its certificate and the algorithm id it names,
      laid out as the writer lays out signed data. */
  lemma {:induction false} ParsedLevelsAreEncoded(por: ByteBuffer)
    requires ParseLevels(por).Ok?
    ensures forall level <- ParseLevels(por).value ::
      && |level.encodedCert| <= INT_MAX
      && EncodeSignedData(level.encodedCert, level.signedSigAlgorithm, por.order) <= level.signedData
    decreases Remaining(por)
  {
    if HasRemaining(por) {
      var Step(frame, rest) := ReadLevelFrame(por).value;
      ReadLevelFrameLayout(por, frame, rest);
      ParseLevelsStep(por, frame, rest);
      var signed := ReadSignedData(frame.signedData).value;
      SignedDataLayout(frame.signedData, signed.0, signed.1);
      ParsedLevelsAreEncoded(rest);
    }
  }
}
