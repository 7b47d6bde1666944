/** Where a delivered payload comes from, when encryption and signatures are ideal
    (transfer/envelope.rs). */
module Authenticity {
  import opened Wire
  import opened Crypto
  import opened Replay
  import opened EnvelopeWire
  import opened Transfer

  /** One call of `create_envelope`. */
  datatype Creation = Creation(p: CreateParams, d: CreateDraws)

  function Created(s: Suite, c: Creation): Result<TransferEnvelope, TransferError> { CreateEnvelope(s, c.p, c.d) }

  /** What the call bound. */
  function SentTranscript(s: Suite, c: Creation): Transcript
    requires Created(s, c).Ok?
  {
    TranscriptOf(Created(s, c).value, c.p.anonymousKey)
  }

  /** What the receiver of an envelope binds. */
  function ReceivedTranscript(e: TransferEnvelope, o: OpenParams): Transcript {
    TranscriptOf(e, if e.recipient.None? then Some(o.publicKey) else None)
  }

  /** The encryption the call performed. */
  ghost predicate IsSealOf(s: Suite, x: Seal, c: Creation) {
    && Created(s, c).Ok?
    && x.aad == Created(s, c).value.transcriptHash
    && exists sig: Signature :: EncodeSigned(sig, c.p.plaintext) == Ok(x.plaintext)
  }

  /** The key seals only what `create_envelope` seals. */
  ghost predicate HonestKey(s: Suite, log: iset<Seal>, key: Bytes, creations: iset<Creation>) {
    forall x :: x in log && x.key == key ==> exists c :: c in creations && IsSealOf(s, x, c)
  }

  /** Nothing verifies that was not signed. */
  ghost predicate Unforgeable(s: Suite, signed: iset<(SigningKey, Bytes)>) {
    forall key, m, sig :: s.verify(key, m, sig) ==> (key, m) in signed
  }

  predicate IsSignedBy(s: Suite, hash: Bytes, key: SigningKey, c: Creation) {
    && Created(s, c).Ok?
    && s.signingPublic(c.p.signingKey) == key
    && Created(s, c).value.transcriptHash == hash
  }

  /** In the domain of transfer envelopes the key signs only in `create_envelope`; in other domains
      it may sign anything. */
  ghost predicate HonestSigner(s: Suite, signed: iset<(SigningKey, Bytes)>, key: SigningKey,
                               creations: iset<Creation>) {
    forall hash: Bytes ::
      (key, SIGNING_DOMAIN + hash) in signed ==> exists c :: c in creations && IsSignedBy(s, hash, key, c)
  }

  /** The envelope ids drawn are distinct. */
  ghost predicate DistinctEnvelopeIds(creations: iset<Creation>) {
    forall b, c :: b in creations && c in creations && b.d.envelopeId == c.d.envelopeId ==> b == c
  }

  /** No created transcript collides with the received one. */
  ghost predicate NoCollision(s: Suite, t: Transcript, creations: iset<Creation>) {
    forall c :: c in creations && Created(s, c).Ok? && s.hash(Preimage(SentTranscript(s, c))) == s.hash(Preimage(t)) ==>
                  Preimage(SentTranscript(s, c)) == Preimage(t)
  }

  /** The hash a created envelope carries is that of what was bound. */
  lemma CarriesItsHash(s: Suite, c: Creation)
    requires Created(s, c).Ok?
    ensures Created(s, c).value.transcriptHash == s.hash(Preimage(SentTranscript(s, c)))
    ensures SentTranscript(s, c).envelopeId == c.d.envelopeId
  {
    hide SenderKey, EncodeSigned, Preimage;
  }

  /** Creations that carry the hash of the received transcript bound the same things. */
  lemma SameHashSameBinding(s: Suite, t: Transcript, creations: iset<Creation>, c: Creation)
    requires NoCollision(s, t, creations) && c in creations && Created(s, c).Ok?
    requires Created(s, c).value.transcriptHash == s.hash(Preimage(t))
    ensures SameBinding(SentTranscript(s, c), t) && t.envelopeId == c.d.envelopeId
  {
    hide CreateEnvelope, Preimage;
    CarriesItsHash(s, c);
    TranscriptIsInjective(SentTranscript(s, c), t);
  }

  /** The key the receiver derives for an envelope. */
  function KeyFor(s: Suite, e: TransferEnvelope, o: OpenParams): Bytes {
    var r := ReceiverKey(s, o.secretKey, o.publicKey, e.ephemeralKey, e.kemCiphertext, o.kemKey, e.transcriptHash);
    if r.Ok? then r.value else []
  }

  /** Ideal primitives, honest holders of the receiver's transfer key and of the sender's signing key. */
  ghost predicate IdealWorld(s: Suite, log: iset<Seal>, signed: iset<(SigningKey, Bytes)>, creations: iset<Creation>,
                             e: TransferEnvelope, o: OpenParams) {
    && Ideal(s.aead, log) && Unforgeable(s, signed) && DistinctEnvelopeIds(creations)
    && NoCollision(s, ReceivedTranscript(e, o), creations)
    && HonestKey(s, log, KeyFor(s, e, o), creations) && HonestSigner(s, signed, o.senderKey, creations)
  }

  /** With an ideal AEAD, unforgeable signatures and no hash collision, a payload that any bytes
      deliver was the payload of one `create_envelope`, by the trusted sender, for exactly the profile, sender,
      recipient, key material, id and expiry of the envelope it was delivered in. */
  lemma DeliveredPayloadWasSent(s: Suite, log: iset<Seal>, signed: iset<(SigningKey, Bytes)>, creations: iset<Creation>,
                                e: TransferEnvelope, o: OpenParams, now: Timestamp, trust: TrustState,
                                identityKey: Option<SigningKey>) returns (c: Creation)
    requires Authenticate(s, e, o, now).Ok? && TrustedKey(trust, identityKey) == Ok(o.senderKey)
    requires IdealWorld(s, log, signed, creations, e, o)
    ensures c in creations && Created(s, c).Ok?
    ensures Authenticate(s, e, o, now).value == c.p.plaintext
    ensures SameBinding(SentTranscript(s, c), ReceivedTranscript(e, o))
    ensures identityKey == Some(s.signingPublic(c.p.signingKey)) && (trust == Verified || trust == Approved)
  {
    hide Ideal, Unforgeable, NoCollision, HonestKey, HonestSigner, CreateEnvelope, Preimage, ReceiverKey, EncodeSigned,
         DecodeSigned, SameBinding, DistinctEnvelopeIds;
    var t := ReceivedTranscript(e, o);
    assert e.transcriptHash == s.hash(Preimage(t));
    var plaintext := s.aead.dec(KeyFor(s, e, o), e.nonce, e.payload, e.transcriptHash).value;
    c := SealedBy(s, log, creations, Seal(KeyFor(s, e, o), e.nonce, plaintext, e.transcriptHash), e.payload);
    var sig, payload := DecodeSigned(plaintext).value.0, DecodeSigned(plaintext).value.1;
    PlaintextIsPayload(s, plaintext, e.transcriptHash, c);
    var b := SignedBy(s, signed, creations, e.transcriptHash, o.senderKey, sig);
    SameHashSameBinding(s, t, creations, b);
    SameHashSameBinding(s, t, creations, c);
    assert b == c by { SameId(creations, b, c); }
  }

  lemma SealedBy(s: Suite, log: iset<Seal>, creations: iset<Creation>, x: Seal, ct: Bytes) returns (c: Creation)
    requires Ideal(s.aead, log) && HonestKey(s, log, x.key, creations)
    requires s.aead.dec(x.key, x.nonce, ct, x.aad) == Some(x.plaintext)
    ensures c in creations && IsSealOf(s, x, c)
  {
    hide IsSealOf;
    assert x in log;
    c :| c in creations && IsSealOf(s, x, c);
  }

  lemma SignedBy(s: Suite, signed: iset<(SigningKey, Bytes)>, creations: iset<Creation>, hash: Bytes, key: SigningKey,
                 sig: Signature) returns (c: Creation)
    requires Unforgeable(s, signed) && HonestSigner(s, signed, key, creations)
    requires s.verify(key, SIGNING_DOMAIN + hash, sig)
    ensures c in creations && IsSignedBy(s, hash, key, c)
  {
    hide IsSignedBy;
    assert (key, SIGNING_DOMAIN + hash) in signed;
    c :| c in creations && IsSignedBy(s, hash, key, c);
  }

  lemma PlaintextIsPayload(s: Suite, plaintext: Bytes, hash: Bytes, c: Creation)
    requires Created(s, c).Ok? && DecodeSigned(plaintext).Ok?
    requires exists sig: Signature :: EncodeSigned(sig, c.p.plaintext) == Ok(plaintext)
    ensures DecodeSigned(plaintext).value.1 == c.p.plaintext
  {
    hide CreateEnvelope, EncodeSigned, DecodeSigned;
    var sig: Signature :| EncodeSigned(sig, c.p.plaintext) == Ok(plaintext);
    SignedRoundTrip(sig, c.p.plaintext);
  }

  lemma SameId(creations: iset<Creation>, b: Creation, c: Creation)
    requires DistinctEnvelopeIds(creations) && b in creations && c in creations && b.d.envelopeId == c.d.envelopeId
    ensures b == c
  {}

  /** Creation does seal that way: the encryption in a created envelope is the one IsSealOf describes, and its
      signature the one IsSignedBy does. */
  lemma CreationSealsAndSigns(s: Suite, c: Creation)
    requires Created(s, c).Ok?
    ensures var e := Created(s, c).value;
            exists key: Bytes, plaintext: Bytes ::
              && e.payload == s.aead.enc(key, e.nonce, plaintext, e.transcriptHash)
              && IsSealOf(s, Seal(key, e.nonce, plaintext, e.transcriptHash), c)
    ensures IsSignedBy(s, Created(s, c).value.transcriptHash, s.signingPublic(c.p.signingKey), c)
  {
    hide SenderKey, EncodeSigned, Preimage;
    var e := Created(s, c).value;
    var (ct, kemSecret) := s.encapsulate(c.p.recipientKemKey, c.d.kemRandom).value;
    var key := SenderKey(s, c.d.ephemeralSecret, e.ephemeralKey, c.p.recipientKey, ct, kemSecret,
                         e.transcriptHash).value;
    var sig := s.sign(c.p.signingKey, SIGNING_DOMAIN + e.transcriptHash).value;
    var plaintext := EncodeSigned(sig, c.p.plaintext).value;
    assert e.payload == s.aead.enc(key, e.nonce, plaintext, e.transcriptHash);
    assert IsSealOf(s, Seal(key, e.nonce, plaintext, e.transcriptHash), c);
  }

  // ---- the assumptions are consistent ---------------------------------------------------------------

  /** The suite with an ideal AEAD that knows one encryption, and signatures that verify for one message. */
  function Idealized(s: Suite, aead: Aead, key: SigningKey, m: Bytes): Suite {
    s.(aead := aead, verify := (k, n, sig) => k == key && n == m && s.verify(k, n, sig))
  }

  lemma IdealizedCreates(s: Suite, aead: Aead, key: SigningKey, m: Bytes, c: Creation)
    requires aead.enc == s.aead.enc
    ensures Created(Idealized(s, aead, key, m), c) == Created(s, c)
  {
    hide EncodeSigned, Preimage;
  }

  /** What a creation encrypts, with the key its receiver derives. */
  lemma SealOfCreation(s: Suite, c: Creation, o: OpenParams) returns (x: Seal)
    requires LawfulSuite(s) && KeysMatch(s, c.p, o) && Created(s, c).Ok?
    ensures var e := Created(s, c).value;
            && x.key == KeyFor(s, e, o) && x.nonce == e.nonce && IsSealOf(s, x, c)
            && e.payload == s.aead.enc(x.key, x.nonce, x.plaintext, x.aad)
  {
    hide LawfulSuite, SenderKey, ReceiverKey, EncodeSigned, Preimage;
    var e := Created(s, c).value;
    var (ct, kemSecret) := s.encapsulate(c.p.recipientKemKey, c.d.kemRandom).value;
    KeysAgree(s, c.d.ephemeralSecret, o.secretKey, o.kemKey, c.d.kemRandom, e.transcriptHash);
    var sig := s.sign(c.p.signingKey, SIGNING_DOMAIN + e.transcriptHash).value;
    x := Seal(KeyFor(s, e, o), e.nonce, EncodeSigned(sig, c.p.plaintext).value, e.transcriptHash);
    assert EncodeSigned(sig, c.p.plaintext) == Ok(x.plaintext);
  }

  lemma LawfulAead(s: Suite)
    requires LawfulSuite(s)
    ensures Lawful(s.aead)
  {}

  /** A bound receiver binds what was sent. */
  lemma BoundReceiverBindsTheSame(s: Suite, c: Creation, o: OpenParams)
    requires KeysMatch(s, c.p, o) && BindsRecipient(c.p) && Created(s, c).Ok?
    ensures Preimage(SentTranscript(s, c)) == Preimage(ReceivedTranscript(Created(s, c).value, o))
  {
    hide SenderKey, EncodeSigned, Preimage;
    TranscriptIsInjective(SentTranscript(s, c), ReceivedTranscript(Created(s, c).value, o));
  }

  lemma SameKeyFor(s: Suite, aead: Aead, key: SigningKey, m: Bytes, e: TransferEnvelope, o: OpenParams)
    ensures KeyFor(Idealized(s, aead, key, m), e, o) == KeyFor(s, e, o)
  {}

  lemma DomainIsPrefix(g: Bytes, h: Bytes)
    requires SIGNING_DOMAIN + g == SIGNING_DOMAIN + h
    ensures g == h
  {
    var n := |SIGNING_DOMAIN|;
    assert (SIGNING_DOMAIN + g)[n..] == g && (SIGNING_DOMAIN + h)[n..] == h;
  }

  lemma WorldIsIdeal(s: Suite, c: Creation, o: OpenParams, x: Seal, aead: Aead)
    requires KeysMatch(s, c.p, o) && BindsRecipient(c.p) && Created(s, c).Ok?
    requires x.key == KeyFor(s, Created(s, c).value, o) && IsSealOf(s, x, c)
    requires aead.enc == s.aead.enc && Ideal(aead, iset{x})
    ensures var e := Created(s, c).value;
            var m := SIGNING_DOMAIN + e.transcriptHash;
            IdealWorld(Idealized(s, aead, o.senderKey, m), iset{x}, iset{(o.senderKey, m)}, iset{c}, e, o)
  {
    hide Ideal, EncodeSigned, CreateEnvelope, Preimage, ReceiverKey;
    var e := Created(s, c).value;
    var m := SIGNING_DOMAIN + e.transcriptHash;
    var t := Idealized(s, aead, o.senderKey, m);
    IdealizedCreates(s, aead, o.senderKey, m, c);
    BoundReceiverBindsTheSame(s, c, o);
    SameKeyFor(s, aead, o.senderKey, m, e, o);
    assert HonestKey(t, iset{x}, KeyFor(t, e, o), iset{c}) by { assert IsSealOf(t, x, c); }
    assert HonestSigner(t, iset{(o.senderKey, m)}, o.senderKey, iset{c}) by {
      forall hash: Bytes | (o.senderKey, SIGNING_DOMAIN + hash) in iset{(o.senderKey, m)}
        ensures IsSignedBy(t, hash, o.senderKey, c)
      {
        DomainIsPrefix(hash, e.transcriptHash);
      }
    }
  }

  /** The recipient of the ideal world accepts what the recipient accepts. */
  lemma IdealizedDelivers(s: Suite, c: Creation, o: OpenParams, x: Seal, aead: Aead, now: Timestamp)
    requires Created(s, c).Ok? && Authenticate(s, Created(s, c).value, o, now) == Ok(c.p.plaintext)
    requires var e := Created(s, c).value;
             && x.key == KeyFor(s, e, o) && x.nonce == e.nonce && x.aad == e.transcriptHash
             && aead.dec(x.key, x.nonce, e.payload, x.aad) == s.aead.dec(x.key, x.nonce, e.payload, x.aad)
    ensures var e := Created(s, c).value;
            var t := Idealized(s, aead, o.senderKey, SIGNING_DOMAIN + e.transcriptHash);
            Authenticate(t, e, o, now) == Ok(c.p.plaintext)
  {
    hide DecodeSigned, CreateEnvelope, Preimage;
  }

  /** The assumptions can be met, and with a delivery: every creation under a lawful suite has an
      ideal world in which it happens and its recipient accepts it. */
  lemma IdealWorldExists(s: Suite, c: Creation, o: OpenParams, now: Timestamp)
    requires LawfulSuite(s) && KeysMatch(s, c.p, o) && BindsRecipient(c.p) && Created(s, c).Ok?
    requires Unexpired(c.p.expiresAt, now)
    ensures exists t: Suite, log: iset<Seal>, signed: iset<(SigningKey, Bytes)> ::
              && IdealWorld(t, log, signed, iset{c}, Created(s, c).value, o)
              && Created(t, c) == Created(s, c)
              && Authenticate(t, Created(s, c).value, o, now) == Ok(c.p.plaintext)
  {
    hide LawfulSuite, EncodeSigned, DecodeSigned, Preimage, ReceiverKey, CreateEnvelope, ValidateEnvelope, Authenticate,
         IdealWorld, Ideal, Lawful, KeyFor, Idealized;
    var e := Created(s, c).value;
    var x := SealOfCreation(s, c, o);
    var m := SIGNING_DOMAIN + e.transcriptHash;
    LawfulAead(s);
    var aead := IdealIsSatisfiable(s.aead, iset{x});
    LawfulAt(s.aead, x.key, x.nonce, x.plaintext, x.aad);
    IdealizedCreates(s, aead, o.senderKey, m, c);
    CreatedEnvelopeValidates(s, c.p, c.d, o.publicKey, now);
    CreatedPayloadDecrypts(s, c.p, c.d, o, now);
    WorldIsIdeal(s, c, o, x, aead);
    IdealizedDelivers(s, c, o, x, aead, now);
  }
}
