/** Creating and opening transfer envelopes, and delivery over whole runs of a receiver
    (transfer/envelope.rs, pqc/hybrid.rs). */
module Transfer {
  import opened Wire
  import opened Crypto
  import opened Replay
  import opened EnvelopeWire

  // ---- primitives and their laws -----------------------------------------------------------------

  datatype SigningAlgorithm = Ed25519V1 | Ed25519MlDsa87HybridV1
  datatype SigningKey = SigningKey(algorithm: SigningAlgorithm, bytes: Bytes)
  datatype Signature = Signature(algorithm: SigningAlgorithm, bytes: Bytes)

  /** Hash, X25519, ML-KEM-768, HKDF, signatures and the AEAD, each an arbitrary function. */
  datatype Suite = Suite(
    hash: Bytes -> Bytes32,
    x25519Public: Bytes32 -> Bytes32,
    diffieHellman: (Bytes32, Bytes32) -> Option<Bytes32>,
    kemPublic: Bytes -> Bytes,
    encapsulate: (Bytes, Bytes) -> Option<(KemCiphertext, Bytes32)>,
    decapsulate: (Bytes, KemCiphertext) -> Option<Bytes32>,
    hkdf: (Bytes, Bytes) -> Bytes32,
    signingPublic: SigningKey -> SigningKey,
    sign: (SigningKey, Bytes) -> Option<Signature>,
    verify: (SigningKey, Bytes, Signature) -> bool,
    aead: Aead)

  predicate AllOnes(key: Bytes32) { forall i :: 0 <= i < 32 ==> key[i] == 0xFF }

  /** Commutativity of Diffie-Hellman (RFC 7748, section 6.1), public keys that are never the
      all-ones string, ML-KEM correctness (FIPS 203), and signature and AEAD round trips. */
  ghost predicate LawfulSuite(s: Suite) {
    && (forall a, b :: s.diffieHellman(a, s.x25519Public(b)) == s.diffieHellman(b, s.x25519Public(a)))
    && (forall a :: !AllOnes(s.x25519Public(a)))
    && (forall sk, rnd :: s.encapsulate(s.kemPublic(sk), rnd).Some? ==>
          s.decapsulate(sk, s.encapsulate(s.kemPublic(sk), rnd).value.0)
          == Some(s.encapsulate(s.kemPublic(sk), rnd).value.1))
    && (forall sk, m :: s.sign(sk, m).Some? ==> s.verify(s.signingPublic(sk), m, s.sign(sk, m).value))
    && Lawful(s.aead)
  }

  /** The laws are consistent: a suite of constant functions obeys them. */
  lemma LawsAreSatisfiable()
    ensures exists s :: LawfulSuite(s)
  {
    LawfulIsSatisfiable();
    var a :| Lawful(a);
    var zero: Bytes32 := Zeros(32);
    var ct: KemCiphertext := Zeros(KEM_CIPHERTEXT_LEN);
    var s := Suite(_ => zero, _ => zero, (_, _) => Some(zero), _ => [], (_, _) => Some((ct, zero)),
                   (_, _) => Some(zero), (_, _) => zero, k => k, (k, _) => Some(Signature(Ed25519V1, [])),
                   (_, _, _) => true, a);
    assert zero[0] != 0xFF;
    assert LawfulSuite(s);
  }

  // ---- the hybrid combiner ----------------------------------------------------------------------

  /** `x25519_shared_secret`. */
  function SharedSecret(s: Suite, secret: Bytes32, peer: Bytes32): Option<Bytes32> {
    if AllOnes(peer) then None else s.diffieHellman(secret, peer)
  }

  /** The 1216-byte HKDF input: KEM secret, DH secret, ephemeral key, recipient key, KEM ciphertext. */
  function KeyMaterial(kemSecret: Bytes32, dhSecret: Bytes32, ephemeral: Bytes32, recipient: Bytes32,
                       ct: KemCiphertext):
    (ikm: Bytes)
    ensures |ikm| == 1216
  {
    kemSecret + dhSecret + ephemeral + recipient + ct
  }

  /** `derive_transfer_key`, the sender's side. */
  function SenderKey(s: Suite, ephemeralSecret: Bytes32, ephemeral: Bytes32, recipient: Bytes32, ct: KemCiphertext,
                     kemSecret: Bytes32, transcript: Bytes32): Result<Bytes32, TransferError>
  {
    match SharedSecret(s, ephemeralSecret, recipient)
    case None => Err(KeyDerivationFailed)
    case Some(dh) => Ok(s.hkdf(transcript, KeyMaterial(kemSecret, dh, ephemeral, recipient, ct)))
  }

  /** `receive_transfer_key`. */
  function ReceiverKey(s: Suite, secret: Bytes32, recipient: Bytes32, ephemeral: Bytes32, ct: KemCiphertext,
                       kemKey: Bytes, transcript: Bytes32): Result<Bytes32, TransferError>
  {
    match SharedSecret(s, secret, ephemeral)
    case None => Err(KeyDerivationFailed)
    case Some(dh) =>
      match s.decapsulate(kemKey, ct)
      case None => Err(KeyDerivationFailed)
      case Some(kemSecret) => Ok(s.hkdf(transcript, KeyMaterial(kemSecret, dh, ephemeral, recipient, ct)))
  }

  // ---- the signed payload ------------------------------------------------------------------------

  function AlgorithmWord(a: SigningAlgorithm): u16 { match a case Ed25519V1 => 1 case Ed25519MlDsa87HybridV1 => 2 }

  function AlgorithmFrom(v: u16): Result<SigningAlgorithm, TransferError> {
    if v == 1 then Ok(Ed25519V1) else if v == 2 then Ok(Ed25519MlDsa87HybridV1) else Err(VerificationFailed)
  }

  function EncodeSigned(sig: Signature, payload: Bytes): Result<Bytes, TransferError> {
    if |sig.bytes| >= TWO_32 then Err(SigningFailed)
    else Ok(U16(AlgorithmWord(sig.algorithm)) + (U32(|sig.bytes|) + (sig.bytes + payload)))
  }

  function DecodeSigned(bytes: Bytes): (r: Result<(Signature, Bytes), TransferError>)
    ensures r.Ok? ==> EncodeSigned(r.value.0, r.value.1) == Ok(bytes)
  {
    var (word, r1) :- TakeU16(bytes, VerificationFailed);
    var algorithm :- AlgorithmFrom(word);
    var (len, r2) :- TakeU32(r1, VerificationFailed);
    var (sig, payload) :- Take(r2, len, VerificationFailed);
    assert bytes == U16(word) + (U32(len) + (sig + payload));
    Ok((Signature(algorithm, sig), payload))
  }

  lemma SignedRoundTrip(sig: Signature, payload: Bytes)
    requires EncodeSigned(sig, payload).Ok?
    ensures DecodeSigned(EncodeSigned(sig, payload).value) == Ok((sig, payload))
  {
    var t2 := sig.bytes + payload;
    var t1 := U32(|sig.bytes|) + t2;
    TakeU16Append(AlgorithmWord(sig.algorithm), t1, VerificationFailed);
    TakeU32Append(|sig.bytes|, t2, VerificationFailed);
    TakeAppend(sig.bytes, payload, VerificationFailed);
  }

  /** b"meissnerseal.transfer.envelope.v1\0" */
  const SIGNING_DOMAIN: Bytes :=
    [0x6D, 0x65, 0x69, 0x73, 0x73, 0x6E, 0x65, 0x72, 0x73, 0x65, 0x61, 0x6C, 0x2E, 0x74, 0x72, 0x61, 0x6E, 0x73,
     0x66, 0x65, 0x72, 0x2E, 0x65, 0x6E, 0x76, 0x65, 0x6C, 0x6F, 0x70, 0x65, 0x2E, 0x76, 0x31, 0x00]

  // ---- create and open -----------------------------------------------------------------------------

  datatype CreateParams = CreateParams(
    sender: Bytes16, recipient: Option<Bytes16>, anonymousKey: Option<Bytes32>, recipientKey: Bytes32,
    recipientKemKey: Bytes, signingKey: SigningKey, plaintext: Bytes, expiresAt: Option<Timestamp>)

  /** What `create_envelope` draws, and its one clock reading. */
  datatype CreateDraws = CreateDraws(envelopeId: Bytes16, ephemeralSecret: Bytes32, kemRandom: Bytes, nonce: Bytes24,
                                     now: Timestamp)

  function TranscriptOf(e: TransferEnvelope, anonymousKey: Option<Bytes32>): Transcript {
    Transcript(e.profile, e.sender, e.ephemeralKey, e.recipient, anonymousKey, e.kemCiphertext, CLASSICAL_ALG_X25519,
               PQC_ALG_MLKEM768, e.envelopeId, e.expiresAt)
  }

  /** `create_envelope`. */
  function CreateEnvelope(s: Suite, p: CreateParams, d: CreateDraws): Result<TransferEnvelope, TransferError> {
    if !Unexpired(p.expiresAt, d.now) then Err(ExpiredEnvelope)
    else if p.recipient.None? && p.anonymousKey.None? then Err(MissingAnonymousRecipientPublicKey)
    else
      match s.encapsulate(p.recipientKemKey, d.kemRandom)
      case None => Err(KeyDerivationFailed)
      case Some((ct, kemSecret)) =>
        var ephemeral := s.x25519Public(d.ephemeralSecret);
        var t := Transcript(TRANSFER_PROFILE_V1, p.sender, ephemeral, p.recipient, p.anonymousKey, ct,
                            CLASSICAL_ALG_X25519, PQC_ALG_MLKEM768, d.envelopeId, p.expiresAt);
        var hash := s.hash(Preimage(t));
        var key :- SenderKey(s, d.ephemeralSecret, ephemeral, p.recipientKey, ct, kemSecret, hash);
        match s.sign(p.signingKey, SIGNING_DOMAIN + hash)
        case None => Err(SigningFailed)
        case Some(sig) =>
          var signed :- EncodeSigned(sig, p.plaintext);
          Ok(TransferEnvelope(1, TRANSFER_PROFILE_V1, d.envelopeId, p.sender, p.recipient, ephemeral, ct, hash,
                              s.aead.enc(key, d.nonce, signed, hash), d.nonce, p.expiresAt))
  }

  /** `validate_envelope`. */
  function ValidateEnvelope(s: Suite, e: TransferEnvelope, anonymousKey: Option<Bytes32>, now: Timestamp):
    Result<(), TransferError>
  {
    if e.version != 1 || e.profile != TRANSFER_PROFILE_V1 then Err(UnknownProfile)
    else if !Unexpired(e.expiresAt, now) then Err(ExpiredEnvelope)
    else if s.hash(Preimage(TranscriptOf(e, anonymousKey))) != e.transcriptHash then Err(TranscriptMismatch)
    else Ok(())
  }

  datatype TrustState = Untrusted | PendingInbound | PendingOutbound | Verified | Approved | Revoked | Expired

  /** `TrustedSender::from_verified`: the key an identity may be trusted with. */
  function TrustedKey(trust: TrustState, signingKey: Option<SigningKey>): Result<SigningKey, TransferError> {
    if trust != Verified && trust != Approved then Err(UntrustedSender)
    else if signingKey.None? then Err(UntrustedSender)
    else Ok(signingKey.value)
  }

  datatype OpenParams = OpenParams(secretKey: Bytes32, publicKey: Bytes32, kemKey: Bytes, senderKey: SigningKey)

  /** The three clock readings of one open: validation, eviction, expiry test. */
  datatype Clocks = Clocks(validate: Timestamp, evict: Timestamp, check: Timestamp)

  /** `open_envelope` up to the replay check. */
  function Authenticate(s: Suite, e: TransferEnvelope, p: OpenParams, now: Timestamp): Result<Bytes, TransferError> {
    var valid :- ValidateEnvelope(s, e, if e.recipient.None? then Some(p.publicKey) else None, now);
    var key :- ReceiverKey(s, p.secretKey, p.publicKey, e.ephemeralKey, e.kemCiphertext, p.kemKey, e.transcriptHash);
    match s.aead.dec(key, e.nonce, e.payload, e.transcriptHash)
    case None => Err(DecryptionFailed)
    case Some(plaintext) =>
      var (sig, payload) :- DecodeSigned(plaintext);
      if !s.verify(p.senderKey, SIGNING_DOMAIN + e.transcriptHash, sig) then Err(VerificationFailed)
      else Ok(payload)
  }

  /** `open_envelope`: the store afterwards, and the payload. */
  function OpenEnvelope(s: Suite, e: TransferEnvelope, p: OpenParams, c: Clocks, seen: seq<SeenId>):
    (seq<SeenId>, Result<Bytes, TransferError>)
  {
    match Authenticate(s, e, p, c.validate)
    case Err(error) => (seen, Err(error))
    case Ok(payload) =>
      var (after, r) := CheckInsert(seen, e.envelopeId, e.expiresAt, c.evict, c.check);
      (after, if r.Ok? then Ok(payload) else Err(r.error))
  }

  /** `open_envelope` on the caller's store object. */
  method OpenWith(s: Suite, e: TransferEnvelope, p: OpenParams, c: Clocks, seen: SeenEnvelopeIds)
    returns (r: Result<Bytes, TransferError>)
    modifies seen
    ensures (seen.entries, r) == OpenEnvelope(s, e, p, c, old(seen.entries))
  {
    hide Authenticate;
    var payload :- Authenticate(s, e, p, c.validate);
    var inserted :- seen.CheckAndInsert(e.envelopeId, e.expiresAt, c.evict, c.check);
    r := Ok(payload);
  }

  // ---- what is sealed opens -----------------------------------------------------------------------------

  /** Sender and receiver derive the same transfer key. */
  lemma KeysAgree(s: Suite, ephemeralSecret: Bytes32, secret: Bytes32, kemKey: Bytes, kemRandom: Bytes,
                  transcript: Bytes32)
    requires LawfulSuite(s) && s.encapsulate(s.kemPublic(kemKey), kemRandom).Some?
    ensures var (ct, kemSecret) := s.encapsulate(s.kemPublic(kemKey), kemRandom).value;
            var ephemeral, recipient := s.x25519Public(ephemeralSecret), s.x25519Public(secret);
            ReceiverKey(s, secret, recipient, ephemeral, ct, kemKey, transcript)
            == SenderKey(s, ephemeralSecret, ephemeral, recipient, ct, kemSecret, transcript)
  {}

  /** The receiver's keys are the ones the sender used. */
  predicate KeysMatch(s: Suite, p: CreateParams, o: OpenParams) {
    && o.publicKey == s.x25519Public(o.secretKey) && p.recipientKey == o.publicKey
    && p.recipientKemKey == s.kemPublic(o.kemKey)
    && o.senderKey == s.signingPublic(p.signingKey)
  }

  /** In named mode, or in anonymous mode with the recipient's own key as the bound key. */
  predicate BindsRecipient(p: CreateParams) {
    p.recipient.Some? || p.anonymousKey == Some(p.recipientKey)
  }

  /** What passes validation and carries the sender's key opens to the sent payload. */
  lemma CreatedPayloadDecrypts(s: Suite, p: CreateParams, d: CreateDraws, o: OpenParams, now: Timestamp)
    requires LawfulSuite(s) && KeysMatch(s, p, o) && CreateEnvelope(s, p, d).Ok?
    requires var e := CreateEnvelope(s, p, d).value;
             ValidateEnvelope(s, e, if e.recipient.None? then Some(o.publicKey) else None, now).Ok?
    ensures Authenticate(s, CreateEnvelope(s, p, d).value, o, now) == Ok(p.plaintext)
  {
    hide Preimage, ReceiverKey, SenderKey, EncodeSigned, DecodeSigned, ValidateEnvelope, LawfulSuite;
    var e := CreateEnvelope(s, p, d).value;
    var (ct, kemSecret) := s.encapsulate(p.recipientKemKey, d.kemRandom).value;
    KeysAgree(s, d.ephemeralSecret, o.secretKey, o.kemKey, d.kemRandom, e.transcriptHash);
    var key := SenderKey(s, d.ephemeralSecret, e.ephemeralKey, p.recipientKey, ct, kemSecret, e.transcriptHash).value;
    var sig := s.sign(p.signingKey, SIGNING_DOMAIN + e.transcriptHash).value;
    SignedRoundTrip(sig, p.plaintext);
    SuiteRoundTrips(s, key, d.nonce, EncodeSigned(sig, p.plaintext).value, e.transcriptHash, p.signingKey,
                    SIGNING_DOMAIN + e.transcriptHash);
  }

  lemma SuiteRoundTrips(s: Suite, key: Bytes, nonce: Bytes, plaintext: Bytes, aad: Bytes, sk: SigningKey, m: Bytes)
    requires LawfulSuite(s)
    ensures s.aead.dec(key, nonce, s.aead.enc(key, nonce, plaintext, aad), aad) == Some(plaintext)
    ensures s.sign(sk, m).Some? ==> s.verify(s.signingPublic(sk), m, s.sign(sk, m).value)
    ensures |s.aead.enc(key, nonce, plaintext, aad)| == |plaintext| + TAG_LEN
  {}

  /** The hash a created envelope carries is the one its receiver recomputes, when the
      receiver is bound. */
  lemma CreatedEnvelopeValidates(s: Suite, p: CreateParams, d: CreateDraws, receiverKey: Bytes32, now: Timestamp)
    requires CreateEnvelope(s, p, d).Ok? && BindsRecipient(p) && receiverKey == p.recipientKey
    requires Unexpired(p.expiresAt, now)
    ensures var e := CreateEnvelope(s, p, d).value;
            ValidateEnvelope(s, e, if e.recipient.None? then Some(receiverKey) else None, now) == Ok(())
  {
    hide SenderKey, EncodeSigned, Preimage;
    var e := CreateEnvelope(s, p, d).value;
    var (ct, kemSecret) := s.encapsulate(p.recipientKemKey, d.kemRandom).value;
    var sent := Transcript(TRANSFER_PROFILE_V1, p.sender, s.x25519Public(d.ephemeralSecret), p.recipient,
                           p.anonymousKey, ct, CLASSICAL_ALG_X25519, PQC_ALG_MLKEM768, d.envelopeId, p.expiresAt);
    var received := TranscriptOf(e, if e.recipient.None? then Some(receiverKey) else None);
    TranscriptIsInjective(sent, received);
  }

  /** Create, then open with matching keys, a live expiry and an unseen id: the original
      payload comes back, in named and in anonymous mode, and the id is recorded. */
  lemma CreatedEnvelopeOpens(s: Suite, p: CreateParams, d: CreateDraws, o: OpenParams, c: Clocks, seen: seq<SeenId>)
    requires LawfulSuite(s) && KeysMatch(s, p, o) && BindsRecipient(p) && CreateEnvelope(s, p, d).Ok?
    requires Unexpired(p.expiresAt, c.validate) && Unexpired(p.expiresAt, c.check)
    requires !Contains(Retain(seen, c.evict), d.envelopeId)
    ensures OpenEnvelope(s, CreateEnvelope(s, p, d).value, o, c, seen)
         == (Retain(seen, c.evict) + [SeenId(d.envelopeId, p.expiresAt)], Ok(p.plaintext))
  {
    hide LawfulSuite, ValidateEnvelope, Authenticate, SenderKey, EncodeSigned, Preimage, Retain, Contains;
    CreatedEnvelopeValidates(s, p, d, o.publicKey, c.validate);
    CreatedPayloadDecrypts(s, p, d, o, c.validate);
    var e := CreateEnvelope(s, p, d).value;
    assert e.envelopeId == d.envelopeId && e.expiresAt == p.expiresAt;
  }

  /** `create_envelope` accepts any anonymous key. Unless the two preimages collide under the
      hash, an anonymous envelope opens for the recipient exactly when the bound key is the
      recipient's own. */
  lemma AnonymousKeyMustBeTheRecipients(s: Suite, p: CreateParams, d: CreateDraws, o: OpenParams, now: Timestamp)
    requires LawfulSuite(s) && KeysMatch(s, p, o) && CreateEnvelope(s, p, d).Ok? && Unexpired(p.expiresAt, now)
    requires p.recipient.None?
    requires var e := CreateEnvelope(s, p, d).value;
             var sent := Preimage(TranscriptOf(e, p.anonymousKey));
             var received := Preimage(TranscriptOf(e, Some(o.publicKey)));
             s.hash(sent) == s.hash(received) ==> sent == received
    ensures Authenticate(s, CreateEnvelope(s, p, d).value, o, now)
         == if p.anonymousKey == Some(p.recipientKey) then Ok(p.plaintext) else Err(TranscriptMismatch)
  {
    hide LawfulSuite, SenderKey, EncodeSigned, Preimage, ReceiverKey, DecodeSigned, SameBinding;
    var e := CreateEnvelope(s, p, d).value;
    if p.anonymousKey == Some(p.recipientKey) {
      CreatedEnvelopeValidates(s, p, d, o.publicKey, now);
      CreatedPayloadDecrypts(s, p, d, o, now);
    } else {
      var sent, received := TranscriptOf(e, p.anonymousKey), TranscriptOf(e, Some(o.publicKey));
      TranscriptIsInjective(sent, received);
      DifferentKeysDifferentBinding(sent, received);
      assert e.transcriptHash == s.hash(Preimage(sent));
    }
  }

  lemma DifferentKeysDifferentBinding(t: Transcript, u: Transcript)
    requires t.recipient.None? && u.recipient.None? && t.anonymousKey.Some? && u.anonymousKey.Some?
    requires t.anonymousKey != u.anonymousKey
    ensures !SameBinding(t, u)
  {}

  /** A suite of constant functions with a hash that separates recipients: the 32 bytes where an
      anonymous transcript has its key. */
  function RecipientPart(b: Bytes): Bytes32 { if |b| >= 117 then b[85..117] else Zeros(32) }

  function SeparatingSuite(a: Aead): Suite {
    Suite(RecipientPart, _ => Zeros(32), (_, _) => Some(Zeros(32)), _ => [],
          (_, _) => Some((Zeros(KEM_CIPHERTEXT_LEN), Zeros(32))), (_, _) => Some(Zeros(32)), (_, _) => Zeros(32),
          k => k, (k, _) => Some(Signature(Ed25519V1, [])), (_, _, _) => true, a)
  }

  lemma SeparatingSuiteIsLawful(a: Aead)
    requires Lawful(a)
    ensures LawfulSuite(SeparatingSuite(a))
  {
    hide Lawful;
    assert Zeros(32)[0] != 0xFF;
  }

  lemma SeparatesRecipients(t: Transcript, key: Bytes32)
    requires t.recipient.None? && t.anonymousKey == Some(key)
    ensures RecipientPart(Preimage(t)) == key
  {
    hide TranscriptHead, TranscriptTail;
  }

  /** Another key than the recipient's all-zero one. */
  const OTHER_KEY: Bytes32 := seq(32, _ => 1)
  const MISMATCHED: CreateParams :=
    CreateParams(Zeros(16), None, Some(OTHER_KEY), Zeros(32), [], SigningKey(Ed25519V1, []), [], None)
  const MISMATCH_DRAWS: CreateDraws := CreateDraws(Zeros(16), Zeros(32), [], Zeros(24), 0)
  const MISMATCH_OPENER: OpenParams := OpenParams(Zeros(32), Zeros(32), [], SigningKey(Ed25519V1, []))

  lemma MismatchedIsCreated(a: Aead)
    ensures CreateEnvelope(SeparatingSuite(a), MISMATCHED, MISMATCH_DRAWS).Ok?
    ensures KeysMatch(SeparatingSuite(a), MISMATCHED, MISMATCH_OPENER)
  {
    hide Preimage, RecipientPart;
    assert Zeros(32)[0] != 0xFF;
  }

  /** It does happen: an envelope created with another key than the recipient's is refused by the
      recipient it was made for. */
  lemma AnonymousMismatchHappens()
    ensures exists s: Suite, p: CreateParams, d: CreateDraws, o: OpenParams, now: Timestamp ::
              LawfulSuite(s) && IsRefusedAnonymous(s, p, d, o, now)
  {
    hide LawfulSuite, CreateEnvelope, KeysMatch, Authenticate, Preimage, SeparatingSuite;
    LawfulIsSatisfiable();
    var a :| Lawful(a);
    var s := SeparatingSuite(a);
    SeparatingSuiteIsLawful(a);
    MismatchedIsCreated(a);
    MismatchIsRefused(a);
    assert IsRefusedAnonymous(s, MISMATCHED, MISMATCH_DRAWS, MISMATCH_OPENER, 0);
  }

  /** A live anonymous envelope, opened with the very keys it was made for, and refused. */
  predicate IsRefusedAnonymous(s: Suite, p: CreateParams, d: CreateDraws, o: OpenParams, now: Timestamp) {
    && KeysMatch(s, p, o) && CreateEnvelope(s, p, d).Ok? && Unexpired(p.expiresAt, now) && p.recipient.None?
    && Authenticate(s, CreateEnvelope(s, p, d).value, o, now) == Err(TranscriptMismatch)
  }

  lemma MismatchIsRefused(a: Aead)
    requires LawfulSuite(SeparatingSuite(a)) && KeysMatch(SeparatingSuite(a), MISMATCHED, MISMATCH_OPENER)
    requires CreateEnvelope(SeparatingSuite(a), MISMATCHED, MISMATCH_DRAWS).Ok?
    ensures Authenticate(SeparatingSuite(a), CreateEnvelope(SeparatingSuite(a), MISMATCHED, MISMATCH_DRAWS).value,
                         MISMATCH_OPENER, 0) == Err(TranscriptMismatch)
  {
    hide LawfulSuite, CreateEnvelope, KeysMatch, Authenticate, Preimage, RecipientPart;
    var s := SeparatingSuite(a);
    var e := CreateEnvelope(s, MISMATCHED, MISMATCH_DRAWS).value;
    CreatedRecipient(s, MISMATCHED, MISMATCH_DRAWS);
    SeparatesRecipients(TranscriptOf(e, Some(OTHER_KEY)), OTHER_KEY);
    SeparatesRecipients(TranscriptOf(e, Some(Zeros(32))), Zeros(32));
    assert OTHER_KEY[0] != Zeros(32)[0];
    AnonymousKeyMustBeTheRecipients(s, MISMATCHED, MISMATCH_DRAWS, MISMATCH_OPENER, 0);
  }

  lemma CreatedRecipient(s: Suite, p: CreateParams, d: CreateDraws)
    requires CreateEnvelope(s, p, d).Ok?
    ensures CreateEnvelope(s, p, d).value.recipient == p.recipient
  {
    hide SenderKey, EncodeSigned, Preimage;
  }

  // ---- through the wire -----------------------------------------------------------------------------------

  /** `UntrustedTransferEnvelope::validate_for_open`: parse, then validate what can be
      validated without the recipient's key. */
  function EnvelopeFromBytes(s: Suite, bytes: Bytes, now: Timestamp): Result<TransferEnvelope, TransferError> {
    var e :- ParseWire(bytes);
    if e.recipient.Some? then
      var valid :- ValidateEnvelope(s, e, None, now);
      Ok(e)
    else if !Unexpired(e.expiresAt, now) then Err(ExpiredEnvelope)
    else Ok(e)
  }

  /** A created envelope survives the wire while it is live and its ciphertext fits a u32
      length, and only then. */
  lemma CreatedEnvelopeSurvivesWire(s: Suite, p: CreateParams, d: CreateDraws, now: Timestamp)
    requires LawfulSuite(s) && CreateEnvelope(s, p, d).Ok?
    ensures var e := CreateEnvelope(s, p, d).value;
            EnvelopeFromBytes(s, WireBytes(e), now) == Ok(e) <==> Unexpired(p.expiresAt, now) && |e.payload| < TWO_32
  {
    hide SenderKey, Preimage, WireBytes, ParseWire;
    var e := CreateEnvelope(s, p, d).value;
    WireRoundTrip(e);
    SealedPayloadIsNotEmpty(s, p, d);
    if p.recipient.Some? {
      var (ct, kemSecret) := s.encapsulate(p.recipientKemKey, d.kemRandom).value;
      var sent := Transcript(TRANSFER_PROFILE_V1, p.sender, s.x25519Public(d.ephemeralSecret), p.recipient,
                             p.anonymousKey, ct, CLASSICAL_ALG_X25519, PQC_ALG_MLKEM768, d.envelopeId, p.expiresAt);
      TranscriptIsInjective(sent, TranscriptOf(e, None));
    }
  }

  lemma SealedPayloadIsNotEmpty(s: Suite, p: CreateParams, d: CreateDraws)
    requires LawfulSuite(s) && CreateEnvelope(s, p, d).Ok?
    ensures |CreateEnvelope(s, p, d).value.payload| >= 1
  {
    hide SenderKey, Preimage, EncodeSigned, LawfulSuite;
    var (ct, kemSecret) := s.encapsulate(p.recipientKemKey, d.kemRandom).value;
    var e := CreateEnvelope(s, p, d).value;
    var key := SenderKey(s, d.ephemeralSecret, e.ephemeralKey, p.recipientKey, ct, kemSecret, e.transcriptHash).value;
    var sig := s.sign(p.signingKey, SIGNING_DOMAIN + e.transcriptHash).value;
    SuiteRoundTrips(s, key, d.nonce, EncodeSigned(sig, p.plaintext).value, e.transcriptHash, p.signingKey, []);
  }

  // ---- runs of a receiver ------------------------------------------------------------------------------------

  /** A receiver opens envelopes, any envelopes with any keys, and saves and reloads its store. */
  datatype ReceiverOp =
    | Receive(envelope: TransferEnvelope, params: OpenParams, clocks: Clocks)
    | SaveAndLoad

  /** How one operation looks to the replay store. */
  function StepOf(s: Suite, op: ReceiverOp): Step {
    match op
    case SaveAndLoad => Reload
    case Receive(e, p, c) =>
      if Authenticate(s, e, p, c.validate).Err? then Rejected else Reached(e.envelopeId, e.expiresAt, c.evict, c.check)
  }

  function StepsOf(s: Suite, ops: seq<ReceiverOp>): (steps: seq<Step>)
    ensures |steps| == |ops| && forall k :: 0 <= k < |ops| ==> steps[k] == StepOf(s, ops[k])
  {
    seq(|ops|, k requires 0 <= k < |ops| => StepOf(s, ops[k]))
  }

  /** The store after the first `k` operations. */
  function SeenAfter(s: Suite, seen: seq<SeenId>, ops: seq<ReceiverOp>, k: nat): seq<SeenId>
    requires k <= |ops|
  {
    if k == 0 then seen
    else
      var before := SeenAfter(s, seen, ops, k - 1);
      match ops[k - 1]
      case SaveAndLoad => var r := ParseStore(StoreBytes(before)); if r.Ok? then r.value else before
      case Receive(e, p, c) => OpenEnvelope(s, e, p, c, before).0
  }

  /** Operation `k` delivered a payload. */
  predicate Delivered(s: Suite, seen: seq<SeenId>, ops: seq<ReceiverOp>, k: nat)
    requires k < |ops|
  {
    ops[k].Receive?
    && OpenEnvelope(s, ops[k].envelope, ops[k].params, ops[k].clocks, SeenAfter(s, seen, ops, k)).1.Ok?
  }

  /** No clock reading goes back, within an open or from one to the next. */
  predicate TimeMovesOn(ops: seq<ReceiverOp>) {
    && (forall k :: 0 <= k < |ops| && ops[k].Receive? ==>
          ops[k].clocks.validate <= ops[k].clocks.evict <= ops[k].clocks.check)
    && forall i, j :: 0 <= i < j < |ops| && ops[i].Receive? && ops[j].Receive? ==>
                        ops[i].clocks.check <= ops[j].clocks.validate
  }

  lemma {:induction false} StoresAgree(s: Suite, seen: seq<SeenId>, ops: seq<ReceiverOp>, k: nat)
    requires k <= |ops|
    ensures SeenAfter(s, seen, ops, k) == StoreAt(seen, StepsOf(s, ops), k)
  {
    hide Authenticate, CheckInsert, ParseStore, StoreBytes;
    if k > 0 { StoresAgree(s, seen, ops, k - 1); }
  }

  /** An error before the replay check leaves the store alone; a failing check only evicts. */
  lemma FailedOpenKeepsLiveIds(s: Suite, e: TransferEnvelope, p: OpenParams, c: Clocks, seen: seq<SeenId>, x: SeenId)
    requires OpenEnvelope(s, e, p, c, seen).1.Err?
    ensures Authenticate(s, e, p, c.validate).Err? ==> OpenEnvelope(s, e, p, c, seen).0 == seen
    ensures x in seen && Unexpired(x.expiresAt, c.evict) ==> x in OpenEnvelope(s, e, p, c, seen).0
    ensures x in OpenEnvelope(s, e, p, c, seen).0 ==> x in seen
  {
    hide Authenticate;
    if Authenticate(s, e, p, c.validate).Ok? {
      FailingCheckOnlyEvicts(seen, e.envelopeId, e.expiresAt, c.evict, c.check, x);
    }
  }

  /** At most one delivery: in every run of a receiver whose clock does not go back, no two
      operations deliver an envelope with the same id and expiry, whatever keys and payloads
      they carry and however often the store is saved and reloaded. */
  lemma DeliveredAtMostOnce(s: Suite, seen: seq<SeenId>, ops: seq<ReceiverOp>, i: nat, j: nat)
    requires GoodStore(seen) && TimeMovesOn(ops) && i < j < |ops|
    requires Delivered(s, seen, ops, i) && ops[j].Receive?
    requires ops[i].envelope.envelopeId == ops[j].envelope.envelopeId
    requires ops[i].envelope.expiresAt == ops[j].envelope.expiresAt
    ensures !Delivered(s, seen, ops, j)
  {
    hide Authenticate, CheckInsert, GoodStore, StoreAt, SeenAfter;
    var steps := StepsOf(s, ops);
    StoresAgree(s, seen, ops, i);
    StoresAgree(s, seen, ops, j);
    RunClocks(s, ops);
    if steps[j].Reached? { AtMostOnce(seen, steps, i, j); }
  }

  /** Delivering is being accepted by the replay check. */
  lemma DeliveredIsAccepted(s: Suite, seen: seq<SeenId>, ops: seq<ReceiverOp>, k: nat)
    requires k < |ops|
    ensures Delivered(s, seen, ops, k) <==> Accepted(seen, StepsOf(s, ops), k)
  {
    hide Authenticate, CheckInsert, SeenAfter, StoreAt;
    StoresAgree(s, seen, ops, k);
  }

  /** When an id that was delivered is delivered again, whatever the clock does: exactly when the
      later envelope authenticates, is unexpired, and some check since the first delivery has
      read a clock at which the first envelope had expired. */
  lemma DeliveredAgainExactly(s: Suite, seen: seq<SeenId>, ops: seq<ReceiverOp>, i: nat, j: nat)
    requires GoodStore(seen) && i < j < |ops| && Delivered(s, seen, ops, i) && ops[j].Receive?
    requires ops[j].envelope.envelopeId == ops[i].envelope.envelopeId
    requires forall m :: i < m < j && ops[m].Receive? && ops[m].envelope.envelopeId == ops[i].envelope.envelopeId ==>
               !Delivered(s, seen, ops, m)
    ensures var e, f := ops[i].envelope, ops[j].envelope;
            Delivered(s, seen, ops, j) <==>
              && Authenticate(s, f, ops[j].params, ops[j].clocks.validate).Ok?
              && Unexpired(f.expiresAt, ops[j].clocks.check)
              && EvictedBetween(StepsOf(s, ops), SeenId(e.envelopeId, e.expiresAt), i, j + 1)
  {
    hide Authenticate, CheckInsert, GoodStore, StoreAt, SeenAfter, Delivered, EvictedBetween;
    var steps := StepsOf(s, ops);
    DeliveredIsAccepted(s, seen, ops, i);
    DeliveredIsAccepted(s, seen, ops, j);
    forall m | i < m < j && steps[m].Reached? && steps[m].id == steps[i].id ensures !Accepted(seen, steps, m) {
      DeliveredIsAccepted(s, seen, ops, m);
    }
    if steps[j].Reached? { AcceptedAgainExactly(seen, steps, i, j); }
  }

  lemma RunClocks(s: Suite, ops: seq<ReceiverOp>)
    requires TimeMovesOn(ops)
    ensures ClockMoves(StepsOf(s, ops))
  {
    hide Authenticate;
    var steps := StepsOf(s, ops);
    forall i, j | 0 <= i < j < |steps| && steps[i].Reached? && steps[j].Reached?
      ensures steps[i].checkNow <= steps[j].evictNow
    {
      assert ops[i].clocks.check <= ops[j].clocks.validate;
    }
  }
}
