/** The transfer envelope: its transcript, and its wire codec (transfer/envelope.rs). */
module EnvelopeWire {
  import opened Wire
  import opened Replay

  const TRANSFER_PROFILE_V1: u16 := 0x0001
  const CLASSICAL_ALG_X25519: u16 := 0x0001
  const PQC_ALG_MLKEM768: u16 := 0x0001
  const KEM_CIPHERTEXT_LEN: nat := 1088
  type KemCiphertext = s: Bytes | |s| == KEM_CIPHERTEXT_LEN witness Zeros(KEM_CIPHERTEXT_LEN)

  datatype TransferEnvelope = TransferEnvelope(
    version: u16, profile: u16, envelopeId: Bytes16, sender: Bytes16, recipient: Option<Bytes16>,
    ephemeralKey: Bytes32, kemCiphertext: KemCiphertext, transcriptHash: Bytes32, payload: Bytes, nonce: Bytes24,
    expiresAt: Option<Timestamp>)

  // ---- the transcript -------------------------------------------------------------------------

  datatype Transcript = Transcript(
    profile: u16, sender: Bytes16, ephemeralKey: Bytes32, recipient: Option<Bytes16>, anonymousKey: Option<Bytes32>,
    kemCiphertext: KemCiphertext, classicalAlg: u16, pqcAlg: u16, envelopeId: Bytes16, expiresAt: Option<Timestamp>)

  /** Whom a transcript binds: a device id wins over an anonymous key. */
  datatype Recipient = Named(id: Bytes16) | Anonymous(key: Bytes32) | Nobody

  function BoundRecipient(t: Transcript): Recipient {
    if t.recipient.Some? then Named(t.recipient.value)
    else if t.anonymousKey.Some? then Anonymous(t.anonymousKey.value)
    else Nobody
  }

  /** The recipient field of the preimage carries no tag and no length. */
  function RecipientBytes(r: Recipient): (b: Bytes)
    ensures |b| == match r case Named(_) => 16 case Anonymous(_) => 32 case Nobody => 0
  {
    match r
    case Named(id) => id
    case Anonymous(key) => key
    case Nobody => []
  }

  /** b"meissnerseal-transfer-transcript-v1" */
  const TRANSCRIPT_DOMAIN: Bytes :=
    [0x6D, 0x65, 0x69, 0x73, 0x73, 0x6E, 0x65, 0x72, 0x73, 0x65, 0x61, 0x6C, 0x2D, 0x74, 0x72, 0x61, 0x6E, 0x73,
     0x66, 0x65, 0x72, 0x2D, 0x74, 0x72, 0x61, 0x6E, 0x73, 0x63, 0x72, 0x69, 0x70, 0x74, 0x2D, 0x76, 0x31]

  function TranscriptHead(t: Transcript): (b: Bytes)
    ensures |b| == 85
  {
    TRANSCRIPT_DOMAIN + (U16(t.profile) + (t.sender + t.ephemeralKey))
  }

  function TranscriptTail(t: Transcript): (b: Bytes)
    ensures |b| == 1120
  {
    U32(KEM_CIPHERTEXT_LEN) + (t.kemCiphertext + (U16(t.classicalAlg) + (U16(t.pqcAlg)
    + (t.envelopeId + U64(ExpiryWord(t.expiresAt))))))
  }

  /** The input of `compute_transcript_hash`. The cast of the expiry to `i64` keeps its bits. */
  function Preimage(t: Transcript): (b: Bytes)
    ensures |b| == 1205 + |RecipientBytes(BoundRecipient(t))|
  {
    TranscriptHead(t) + (RecipientBytes(BoundRecipient(t)) + TranscriptTail(t))
  }

  /** Equal in every bound field, up to reading an absent expiry as zero. */
  predicate SameBinding(t: Transcript, u: Transcript) {
    && t.profile == u.profile && t.sender == u.sender && t.ephemeralKey == u.ephemeralKey
    && BoundRecipient(t) == BoundRecipient(u)
    && t.kemCiphertext == u.kemCiphertext && t.classicalAlg == u.classicalAlg && t.pqcAlg == u.pqcAlg
    && t.envelopeId == u.envelopeId
    && ExpiryWord(t.expiresAt) == ExpiryWord(u.expiresAt)
  }

  lemma HeadFields(t: Transcript)
    ensures var b := TranscriptHead(t);
            UnLe(b[35..37]) == t.profile && b[37..53] == t.sender && b[53..85] == t.ephemeralKey
  {
    var b := TranscriptHead(t);
    assert b[35..37] == U16(t.profile);
    assert b[37..53] == t.sender;
    assert b[53..85] == t.ephemeralKey;
  }

  lemma TailFields(t: Transcript)
    ensures var b := TranscriptTail(t);
            && b[4..1092] == t.kemCiphertext && UnLe(b[1092..1094]) == t.classicalAlg
            && UnLe(b[1094..1096]) == t.pqcAlg && b[1096..1112] == t.envelopeId
            && UnLe(b[1112..1120]) == ExpiryWord(t.expiresAt)
  {
    var b := TranscriptTail(t);
    assert b[4..1092] == t.kemCiphertext;
    assert b[1092..1094] == U16(t.classicalAlg);
    assert b[1094..1096] == U16(t.pqcAlg);
    assert b[1096..1112] == t.envelopeId;
    assert b[1112..1120] == U64(ExpiryWord(t.expiresAt));
  }

  /** The preimage is injective on what it binds, although the recipient field is untagged:
      its length alone tells the three modes apart. */
  lemma TranscriptIsInjective(t: Transcript, u: Transcript)
    ensures Preimage(t) == Preimage(u) <==> SameBinding(t, u)
  {
    hide TranscriptHead, TranscriptTail;
    if Preimage(t) == Preimage(u) {
      var p, r, s := Preimage(t), RecipientBytes(BoundRecipient(t)), RecipientBytes(BoundRecipient(u));
      assert |r| == |s|;
      assert TranscriptHead(t) == p[..85] == TranscriptHead(u);
      assert r == p[85..85 + |r|] == s;
      assert TranscriptTail(t) == p[85 + |r|..] == TranscriptTail(u);
      HeadFields(t); HeadFields(u);
      TailFields(t); TailFields(u);
    }
    if SameBinding(t, u) { SameBytes(t, u); }
  }

  lemma SameBytes(t: Transcript, u: Transcript)
    requires SameBinding(t, u)
    ensures TranscriptHead(t) == TranscriptHead(u) && TranscriptTail(t) == TranscriptTail(u)
  {}

  /** The one pair of expiries the preimage identifies is harmless: expiry zero has passed at
      every clock reading. */
  lemma ZeroExpiryIsAlwaysExpired(now: Timestamp)
    ensures !Unexpired(Some(0), now) && Unexpired(None, now)
  {}

  // ---- the wire codec -----------------------------------------------------------------------------

  /** b"MSENV\x01" */
  const ENVELOPE_MAGIC: Bytes := [0x4D, 0x53, 0x45, 0x4E, 0x56, 0x01]

  function PrintRecipient(r: Option<Bytes16>): Bytes { if r.Some? then [1] + r.value else [0] }
  function PrintExpiry(t: Option<Timestamp>): Bytes { if t.Some? then [1] + U64(t.value) else [0] }

  /** The u32 length of the payload, saturating. */
  function PayloadWord(e: TransferEnvelope): u32 { if |e.payload| < TWO_32 then |e.payload| else TWO_32 - 1 }

  /** `envelope_to_bytes` from the recipient on. */
  function PrintBody(e: TransferEnvelope): Bytes {
    PrintRecipient(e.recipient) + (e.ephemeralKey + (U32(KEM_CIPHERTEXT_LEN) + (e.kemCiphertext + (e.transcriptHash
    + (e.nonce + (PrintExpiry(e.expiresAt) + (U32(PayloadWord(e)) + e.payload)))))))
  }

  /** `envelope_to_bytes`. */
  function WireBytes(e: TransferEnvelope): Bytes {
    ENVELOPE_MAGIC + (U16(e.version) + (U16(e.profile) + (e.envelopeId + (e.sender + PrintBody(e)))))
  }

  function TakeRecipient(s: Bytes): (r: Result<(Option<Bytes16>, Bytes), TransferError>)
    ensures r.Ok? ==> s == PrintRecipient(r.value.0) + r.value.1
  {
    var (flag, r1) :- TakeU8(s, UnknownProfile);
    if flag == 0 then Ok((None, r1))
    else if flag != 1 then Err(UnknownProfile)
    else
      var (id, r2) :- Take(r1, 16, UnknownProfile);
      assert s == ([1] + id) + r2;
      Ok((Some(id), r2))
  }

  function TakeExpiry(s: Bytes): (r: Result<(Option<Timestamp>, Bytes), TransferError>)
    ensures r.Ok? ==> s == PrintExpiry(r.value.0) + r.value.1
  {
    var (flag, r1) :- TakeU8(s, UnknownProfile);
    if flag == 0 then Ok((None, r1))
    else if flag != 1 then Err(UnknownProfile)
    else
      var (t, r2) :- TakeU64(r1, UnknownProfile);
      assert s == ([1] + U64(t)) + r2;
      Ok((Some(t), r2))
  }

  /** The fields from the recipient on. */
  datatype Body = Body(recipient: Option<Bytes16>, ephemeralKey: Bytes32, kemCiphertext: KemCiphertext,
                       transcriptHash: Bytes32, nonce: Bytes24, expiresAt: Option<Timestamp>, payload: Bytes)

  function ParseBody(s: Bytes): Result<Body, TransferError> {
    var (recipient, r1) :- TakeRecipient(s);
    var (ephemeralKey, r2) :- Take(r1, 32, UnknownProfile);
    var (kemLen, r3) :- TakeU32(r2, UnknownProfile);
    if kemLen != KEM_CIPHERTEXT_LEN then Err(UnknownProfile)
    else
      var (kemCiphertext, r4) :- Take(r3, KEM_CIPHERTEXT_LEN, UnknownProfile);
      var (hash, r5) :- Take(r4, 32, UnknownProfile);
      var (nonce, r6) :- Take(r5, 24, UnknownProfile);
      var (expiresAt, r7) :- TakeExpiry(r6);
      var (payloadLen, payload) :- TakeU32(r7, UnknownProfile);
      if payloadLen == 0 || payloadLen != |payload| then Err(UnknownProfile)
      else Ok(Body(recipient, ephemeralKey, kemCiphertext, hash, nonce, expiresAt, payload))
  }

  /** `parse_envelope_bytes`. */
  function ParseWire(bytes: Bytes): Result<TransferEnvelope, TransferError> {
    var (magic, r1) :- Take(bytes, 6, UnknownProfile);
    if magic != ENVELOPE_MAGIC then Err(UnknownProfile)
    else
      var (version, r2) :- TakeU16(r1, UnknownProfile);
      if version != 1 then Err(UnknownProfile)
      else
        var (profile, r3) :- TakeU16(r2, UnknownProfile);
        if profile != TRANSFER_PROFILE_V1 then Err(UnknownProfile)
        else
          var (envelopeId, r4) :- Take(r3, 16, UnknownProfile);
          var (sender, r5) :- Take(r4, 16, UnknownProfile);
          var b :- ParseBody(r5);
          Ok(TransferEnvelope(version, profile, envelopeId, sender, b.recipient, b.ephemeralKey, b.kemCiphertext,
                              b.transcriptHash, b.payload, b.nonce, b.expiresAt))
  }

  function BodyOf(e: TransferEnvelope): Body {
    Body(e.recipient, e.ephemeralKey, e.kemCiphertext, e.transcriptHash, e.nonce, e.expiresAt, e.payload)
  }

  lemma TakePrintedRecipient(r: Option<Bytes16>, rest: Bytes)
    ensures TakeRecipient(PrintRecipient(r) + rest) == Ok((r, rest))
  {
    hide TakeU8;
    if r.Some? {
      assert PrintRecipient(r) + rest == [1] + (r.value + rest);
      TakeU8Append(1, r.value + rest, UnknownProfile);
      TakeAppend(r.value, rest, UnknownProfile);
    } else {
      TakeU8Append(0, rest, UnknownProfile);
    }
  }

  lemma TakePrintedExpiry(t: Option<Timestamp>, rest: Bytes)
    ensures TakeExpiry(PrintExpiry(t) + rest) == Ok((t, rest))
  {
    hide U64, TakeU64, TakeU8;
    if t.Some? {
      assert PrintExpiry(t) + rest == [1] + (U64(t.value) + rest);
      TakeU8Append(1, U64(t.value) + rest, UnknownProfile);
      TakeU64Append(t.value, rest, UnknownProfile);
    } else {
      TakeU8Append(0, rest, UnknownProfile);
    }
  }

  lemma BodyRoundTrip(e: TransferEnvelope)
    ensures ParseBody(PrintBody(e)) == if 1 <= |e.payload| < TWO_32 then Ok(BodyOf(e)) else Err(UnknownProfile)
  {
    hide TakeRecipient, TakeExpiry, PrintRecipient, PrintExpiry, TakeU32;
    var t7 := U32(PayloadWord(e)) + e.payload;
    var t6 := PrintExpiry(e.expiresAt) + t7;
    var t5 := e.nonce + t6;
    var t4 := e.transcriptHash + t5;
    var t3 := e.kemCiphertext + t4;
    var t2 := U32(KEM_CIPHERTEXT_LEN) + t3;
    var t1 := e.ephemeralKey + t2;
    TakePrintedRecipient(e.recipient, t1);
    TakeAppend(e.ephemeralKey, t2, UnknownProfile);
    TakeU32Append(KEM_CIPHERTEXT_LEN, t3, UnknownProfile);
    TakeAppend(e.kemCiphertext, t4, UnknownProfile);
    TakeAppend(e.transcriptHash, t5, UnknownProfile);
    TakeAppend(e.nonce, t6, UnknownProfile);
    TakePrintedExpiry(e.expiresAt, t7);
    TakeU32Append(PayloadWord(e), e.payload, UnknownProfile);
  }

  /** A printed envelope parses back to itself exactly when it is a v1 envelope with a
      payload of 1 to 2^32 - 1 bytes; any other printed envelope is rejected. */
  lemma WireRoundTrip(e: TransferEnvelope)
    ensures ParseWire(WireBytes(e))
         == if e.version == 1 && e.profile == TRANSFER_PROFILE_V1 && 1 <= |e.payload| < TWO_32 then Ok(e)
            else Err(UnknownProfile)
  {
    hide PrintBody, ParseBody, TakeU16;
    var t5 := PrintBody(e);
    var t4 := e.sender + t5;
    var t3 := e.envelopeId + t4;
    var t2 := U16(e.profile) + t3;
    var t1 := U16(e.version) + t2;
    TakeAppend(ENVELOPE_MAGIC, t1, UnknownProfile);
    TakeU16Append(e.version, t2, UnknownProfile);
    TakeU16Append(e.profile, t3, UnknownProfile);
    TakeAppend(e.envelopeId, t4, UnknownProfile);
    TakeAppend(e.sender, t5, UnknownProfile);
    BodyRoundTrip(e);
  }

  lemma AcceptedBodyIsCanonical(s: Bytes, e: TransferEnvelope)
    requires ParseBody(s) == Ok(BodyOf(e))
    ensures s == PrintBody(e) && 1 <= |e.payload| < TWO_32
  {
    hide TakeRecipient, TakeExpiry, PrintRecipient, PrintExpiry, TakeU32, Take;
    var (recipient, r1) := TakeRecipient(s).value;
    var (ephemeralKey, r2) := Take(r1, 32, UnknownProfile).value;
    var (kemLen, r3) := TakeU32(r2, UnknownProfile).value;
    var (kemCiphertext, r4) := Take(r3, KEM_CIPHERTEXT_LEN, UnknownProfile).value;
    var (hash, r5) := Take(r4, 32, UnknownProfile).value;
    var (nonce, r6) := Take(r5, 24, UnknownProfile).value;
    var (expiresAt, r7) := TakeExpiry(r6).value;
    var (payloadLen, payload) := TakeU32(r7, UnknownProfile).value;
  }

  /** Printing whatever parses gives back the same bytes: truncated, extended and
      alternatively encoded envelopes are all rejected. */
  lemma AcceptedWireIsCanonical(bytes: Bytes)
    requires ParseWire(bytes).Ok?
    ensures WireBytes(ParseWire(bytes).value) == bytes
  {
    hide PrintBody, ParseBody, TakeU16, Take;
    var e := ParseWire(bytes).value;
    var (magic, r1) := Take(bytes, 6, UnknownProfile).value;
    var (version, r2) := TakeU16(r1, UnknownProfile).value;
    var (profile, r3) := TakeU16(r2, UnknownProfile).value;
    var (envelopeId, r4) := Take(r3, 16, UnknownProfile).value;
    var (sender, r5) := Take(r4, 16, UnknownProfile).value;
    AcceptedBodyIsCanonical(r5, e);
  }

  // ---- the cursor parser and the buffer writer ---------------------------------------------------

  /** `parse_envelope_bytes` over its cursor parser. */
  method ParseEnvelopeBytes(bytes: Bytes) returns (r: Result<TransferEnvelope, TransferError>)
    ensures r == ParseWire(bytes)
  {
    hide ParseBody;
    var parser := new ByteParser(bytes, UnknownProfile);
    var magic :- parser.TakeSlice(6);
    if magic != ENVELOPE_MAGIC { return Err(UnknownProfile); }
    var version :- parser.TakeU16Le();
    if version != 1 { return Err(UnknownProfile); }
    var profile :- parser.TakeU16Le();
    if profile != TRANSFER_PROFILE_V1 { return Err(UnknownProfile); }
    var envelopeId :- parser.TakeSlice(16);
    var sender :- parser.TakeSlice(16);
    var b :- ParseBodyFields(parser);
    r := Ok(TransferEnvelope(version, profile, envelopeId, sender, b.recipient, b.ephemeralKey, b.kemCiphertext,
                             b.transcriptHash, b.payload, b.nonce, b.expiresAt));
  }

  method ParseBodyFields(parser: ByteParser<TransferError>) returns (r: Result<Body, TransferError>)
    requires parser.Valid() && parser.error == UnknownProfile
    modifies parser`offset
    ensures r == old(ParseBody(parser.Rest()))
  {
    hide TakeRecipient, TakeExpiry, TakeU32, Take;
    var recipient :- RecipientField(parser);
    var ephemeralKey :- parser.TakeSlice(32);
    var kemLen :- parser.TakeU32Le();
    if kemLen != KEM_CIPHERTEXT_LEN { return Err(UnknownProfile); }
    var kemCiphertext :- parser.TakeSlice(kemLen);
    var hash :- parser.TakeSlice(32);
    var nonce :- parser.TakeSlice(24);
    var expiresAt :- ExpiryField(parser);
    var payload :- PayloadField(parser);
    r := Ok(Body(recipient, ephemeralKey, kemCiphertext, hash, nonce, expiresAt, payload));
  }

  method RecipientField(parser: ByteParser<TransferError>) returns (r: Result<Option<Bytes16>, TransferError>)
    requires parser.Valid() && parser.error == UnknownProfile
    modifies parser`offset
    ensures parser.Valid()
    ensures old(TakeRecipient(parser.Rest())).Err? ==> r == Err(old(TakeRecipient(parser.Rest())).error)
    ensures old(TakeRecipient(parser.Rest())).Ok? ==>
              && r == Ok(old(TakeRecipient(parser.Rest())).value.0)
              && parser.Rest() == old(TakeRecipient(parser.Rest())).value.1
  {
    var flag :- parser.TakeByte();
    if flag == 0 { return Ok(None); }
    if flag != 1 { return Err(UnknownProfile); }
    var id :- parser.TakeSlice(16);
    r := Ok(Some(id));
  }

  method ExpiryField(parser: ByteParser<TransferError>) returns (r: Result<Option<Timestamp>, TransferError>)
    requires parser.Valid() && parser.error == UnknownProfile
    modifies parser`offset
    ensures parser.Valid()
    ensures old(TakeExpiry(parser.Rest())).Err? ==> r == Err(old(TakeExpiry(parser.Rest())).error)
    ensures old(TakeExpiry(parser.Rest())).Ok? ==>
              && r == Ok(old(TakeExpiry(parser.Rest())).value.0)
              && parser.Rest() == old(TakeExpiry(parser.Rest())).value.1
  {
    var flag :- parser.TakeByte();
    if flag == 0 { return Ok(None); }
    if flag != 1 { return Err(UnknownProfile); }
    var t :- parser.TakeU64Le();
    r := Ok(Some(t));
  }

  /** The payload is the last field: it must be non-empty and end with the input. */
  method PayloadField(parser: ByteParser<TransferError>) returns (r: Result<Bytes, TransferError>)
    requires parser.Valid() && parser.error == UnknownProfile
    modifies parser`offset
    ensures var t := old(TakeU32(parser.Rest(), UnknownProfile));
            r == if t.Err? then Err(t.error)
                 else if t.value.0 == 0 || t.value.0 != |t.value.1| then Err(UnknownProfile)
                 else Ok(t.value.1)
  {
    var payloadLen :- parser.TakeU32Le();
    if payloadLen == 0 { return Err(UnknownProfile); }
    ghost var all := parser.Rest();
    var payload :- parser.TakeSlice(payloadLen);
    assert all == payload + parser.Rest();
    var done := parser.IsEmpty();
    if !done { return Err(UnknownProfile); }
    assert payload + [] == payload;
    r := Ok(payload);
  }
}
