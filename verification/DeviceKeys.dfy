/** Device identities, keypairs and the sealed key file (keys/device.rs). */
module DeviceKeys {
  import opened Wire
  import opened Crypto
  import opened Transfer

  datatype DeviceError =
    | Unimplemented | InvalidFileFormat | EmptyDisplayName | MissingSigningKey | InvalidSigningPublicKeyLength
    | OpenFailed | IdentityFingerprintMismatch

  type Bytes1184 = s: Bytes | |s| == 1184 witness Zeros(1184)
  type Bytes2400 = s: Bytes | |s| == 2400 witness Zeros(2400)

  datatype Identity = Identity(deviceId: Bytes16, name: Text, classical: Bytes32, pqc: Bytes1184,
                               signing: Option<SigningKey>, createdAt: u64, trust: TrustState)

  datatype Keypair = Keypair(classical: Bytes32, pqc: Bytes2400, signing: SigningKey)

  function TrustByte(t: TrustState): byte {
    match t
    case Untrusted => 0
    case PendingInbound => 1
    case PendingOutbound => 2
    case Verified => 3
    case Approved => 4
    case Revoked => 5
    case Expired => 6
  }

  function TrustFrom(b: byte): Result<TrustState, DeviceError> {
    match b
    case 0 => Ok(Untrusted)
    case 1 => Ok(PendingInbound)
    case 2 => Ok(PendingOutbound)
    case 3 => Ok(Verified)
    case 4 => Ok(Approved)
    case 5 => Ok(Revoked)
    case 6 => Ok(Expired)
    case _ => Err(InvalidFileFormat)
  }

  /** `DeviceIdentity::validate`. */
  function Validate(id: Identity): Result<(), DeviceError> {
    if id.name == [] then Err(EmptyDisplayName)
    else if (id.trust == Verified || id.trust == Approved) && id.signing.None? then Err(MissingSigningKey)
    else Ok(())
  }

  /** `try_new_signing_public_key`. */
  function NewSigningKey(a: SigningAlgorithm, bytes: Bytes): Result<SigningKey, DeviceError> {
    match a
    case Ed25519V1 => if |bytes| == 32 then Ok(SigningKey(Ed25519V1, bytes)) else Err(InvalidSigningPublicKeyLength)
    case Ed25519MlDsa87HybridV1 => Err(Unimplemented)
  }

  function AlgorithmOf(word: u16): Result<SigningAlgorithm, DeviceError> {
    match AlgorithmFrom(word)
    case Ok(a) => Ok(a)
    case Err(_) => Err(InvalidFileFormat)
  }

  // ---- identity bytes ------------------------------------------------------------------------------

  /** `u32::try_from(len).unwrap_or(u32::MAX)`. */
  function Saturated(n: nat): u32 { if n < TWO_32 then n else TWO_32 - 1 }

  function SigningBytes(k: Option<SigningKey>): Bytes {
    match k
    case None => [0]
    case Some(k) => [1] + (U16(AlgorithmWord(k.algorithm)) + (U32(Saturated(|k.bytes|)) + k.bytes))
  }

  /** The fields of an identity in the order that both the file and the fingerprint use. */
  function IdentityFields(id: Identity): Bytes {
    id.deviceId + (U32(Saturated(|id.name|)) + (id.name + (id.classical + (id.pqc
    + (SigningBytes(id.signing) + (U64(id.createdAt) + [TrustByte(id.trust)]))))))
  }

  predicate LengthsFit(id: Identity) {
    |id.name| < TWO_32 && (id.signing.Some? ==> |id.signing.value.bytes| < TWO_32)
  }

  /** `serialize_identity_bytes`. */
  function IdentityBytes(id: Identity): Result<Bytes, DeviceError> {
    if LengthsFit(id) then Ok([1] + IdentityFields(id)) else Err(InvalidFileFormat)
  }

  function TakeSigning(s: Bytes): Result<(Option<SigningKey>, Bytes), DeviceError> {
    var (flag, r1) :- TakeU8(s, InvalidFileFormat);
    if flag == 0 then Ok((None, r1))
    else if flag != 1 then Err(InvalidFileFormat)
    else
      var (word, r2) :- TakeU16(r1, InvalidFileFormat);
      var algorithm :- AlgorithmOf(word);
      var (len, r3) :- TakeU32(r2, InvalidFileFormat);
      var (bytes, r4) :- Take(r3, len, InvalidFileFormat);
      var key :- NewSigningKey(algorithm, bytes);
      Ok((Some(key), r4))
  }

  function TakeName(s: Bytes): Result<(Text, Bytes), DeviceError> {
    var (len, r1) :- TakeU32(s, InvalidFileFormat);
    var (name, r2) :- Take(r1, len, InvalidFileFormat);
    if ValidUtf8(name) then Ok((name, r2)) else Err(InvalidFileFormat)
  }

  /** `deserialize_identity_bytes`. */
  function ParseIdentity(bytes: Bytes): Result<Identity, DeviceError> {
    var (version, r1) :- TakeU8(bytes, InvalidFileFormat);
    if version != 1 then Err(InvalidFileFormat)
    else
      var (deviceId, r2) :- Take(r1, 16, InvalidFileFormat);
      var (name, r3) :- TakeName(r2);
      var (classical, r4) :- Take(r3, 32, InvalidFileFormat);
      var (pqc, r5) :- Take(r4, 1184, InvalidFileFormat);
      var (signing, r6) :- TakeSigning(r5);
      var (createdAt, r7) :- TakeU64(r6, InvalidFileFormat);
      var (trustByte, r8) :- TakeU8(r7, InvalidFileFormat);
      var trust :- TrustFrom(trustByte);
      if r8 != [] then Err(InvalidFileFormat)
      else
        var id := Identity(deviceId, name, classical, pqc, signing, createdAt, trust);
        var _ :- Validate(id);
        Ok(id)
  }

  /** An Ed25519 public key of 32 bytes is the only signing key a file can hold. */
  predicate SigningKeyFits(id: Identity) {
    id.signing.Some? ==> NewSigningKey(id.signing.value.algorithm, id.signing.value.bytes).Ok?
  }

  predicate Portable(id: Identity) { Validate(id).Ok? && SigningKeyFits(id) }

  lemma TakeSigningBytes(k: Option<SigningKey>, rest: Bytes)
    requires k.Some? ==> |k.value.bytes| < TWO_32
    ensures TakeSigning(SigningBytes(k) + rest) ==
              if k.None? then Ok((None, rest))
              else if NewSigningKey(k.value.algorithm, k.value.bytes).Ok? then Ok((k, rest))
              else Err(NewSigningKey(k.value.algorithm, k.value.bytes).error)
  {
    hide Le, UnLe, Pow256;
    if k.None? {
      assert [0] + rest == [0 as byte] + rest;
      TakeU8Append(0, rest, InvalidFileFormat);
    } else {
      var b := k.value.bytes;
      var t2 := U32(|b|) + (b + rest);
      var t1 := U16(AlgorithmWord(k.value.algorithm)) + t2;
      assert SigningBytes(k) + rest == [1] + t1;
      TakeU8Append(1, t1, InvalidFileFormat);
      TakeU16Append(AlgorithmWord(k.value.algorithm), t2, InvalidFileFormat);
      TakeU32Append(|b|, b + rest, InvalidFileFormat);
      TakeAppend(b, rest, InvalidFileFormat);
    }
  }

  lemma TakePrintedName(name: Text, rest: Bytes)
    requires |name| < TWO_32
    ensures TakeName(U32(|name|) + (name + rest)) == Ok((name, rest))
  {
    TakeU32Append(|name|, name + rest, InvalidFileFormat);
    TakeAppend(name, rest, InvalidFileFormat);
  }

  /** Reading written identity bytes returns the identity exactly when it is valid and its
      signing key, if any, is a 32-byte Ed25519 key; otherwise the matching error. */
  lemma IdentityRoundTrip(id: Identity)
    requires LengthsFit(id)
    ensures ParseIdentity(IdentityBytes(id).value) ==
              if !SigningKeyFits(id) then Err(NewSigningKey(id.signing.value.algorithm, id.signing.value.bytes).error)
              else if Validate(id).Err? then Err(Validate(id).error)
              else Ok(id)
  {
    hide Take, TakeU8, TakeU32, TakeU64, TakeName, TakeSigning, SigningBytes, U32, U64, NewSigningKey;
    var t8 := [TrustByte(id.trust)];
    var t7 := U64(id.createdAt) + t8;
    var t6 := SigningBytes(id.signing) + t7;
    var t5 := id.pqc + t6;
    var t4 := id.classical + t5;
    var t3 := U32(|id.name|) + (id.name + t4);
    var t2 := id.deviceId + t3;
    assert IdentityFields(id) == t2;
    TakeU8Append(1, t2, InvalidFileFormat);
    TakeAppend(id.deviceId, t3, InvalidFileFormat);
    TakePrintedName(id.name, t4);
    TakeAppend(id.classical, t5, InvalidFileFormat);
    TakeAppend(id.pqc, t6, InvalidFileFormat);
    TakeSigningBytes(id.signing, t7);
    TakeU64Append(id.createdAt, t8, InvalidFileFormat);
    assert t8 == [TrustByte(id.trust)] + [];
    TakeU8Append(TrustByte(id.trust), [], InvalidFileFormat);
  }

  lemma TakenSigningIsPrinted(s: Bytes)
    requires TakeSigning(s).Ok?
    ensures var (k, rest) := TakeSigning(s).value;
            && s == SigningBytes(k) + rest
            && (k.Some? ==> |k.value.bytes| == 32 && NewSigningKey(k.value.algorithm, k.value.bytes) == Ok(k.value))
  {
    hide Le, UnLe, Pow256;
    var (k, rest) := TakeSigning(s).value;
    if k.Some? {
      assert s == [1] + (U16(AlgorithmWord(k.value.algorithm)) + (U32(|k.value.bytes|) + (k.value.bytes + rest)));
    }
  }

  lemma TakenNameIsPrinted(s: Bytes)
    requires TakeName(s).Ok?
    ensures var (name, rest) := TakeName(s).value;
            |name| < TWO_32 && s == U32(|name|) + (name + rest)
  {}

  /** Accepted identity bytes are the ones written for the identity they return. */
  lemma AcceptedIdentityIsCanonical(bytes: Bytes)
    requires ParseIdentity(bytes).Ok?
    ensures Portable(ParseIdentity(bytes).value) && IdentityBytes(ParseIdentity(bytes).value) == Ok(bytes)
  {
    hide TakeName, TakeSigning, SigningBytes, U32, U64, TakeU64, Take, TakeU8, NewSigningKey;
    var id := ParseIdentity(bytes).value;
    var (version, r1) := TakeU8(bytes, InvalidFileFormat).value;
    var (deviceId, r2) := Take(r1, 16, InvalidFileFormat).value;
    var (name, r3) := TakeName(r2).value;
    TakenNameIsPrinted(r2);
    var (classical, r4) := Take(r3, 32, InvalidFileFormat).value;
    var (pqc, r5) := Take(r4, 1184, InvalidFileFormat).value;
    var (signing, r6) := TakeSigning(r5).value;
    TakenSigningIsPrinted(r5);
    var (createdAt, r7) := TakeU64(r6, InvalidFileFormat).value;
    var (trustByte, r8) := TakeU8(r7, InvalidFileFormat).value;
    assert r7 == [TrustByte(id.trust)];
    assert r1 == IdentityFields(id);
  }

  // ---- keypair bytes ------------------------------------------------------------------------------------

  /** `serialize_keypair_bytes`. */
  function KeypairBytes(deviceId: Bytes16, classicalPublic: Bytes32, kp: Keypair): Bytes {
    [1] + (deviceId + (classicalPublic + (kp.classical + (kp.pqc + PrivateKeyBytes(kp.signing)))))
  }

  function PrivateKeyBytes(k: SigningKey): Bytes {
    U16(AlgorithmWord(k.algorithm)) + (U32(Saturated(|k.bytes|)) + k.bytes)
  }

  /** The signing key that ends the keypair bytes. */
  function ParsePrivateKey(bytes: Bytes): Result<SigningKey, DeviceError> {
    var (word, r1) :- TakeU16(bytes, InvalidFileFormat);
    var algorithm :- AlgorithmOf(word);
    var (len, r2) :- TakeU32(r1, InvalidFileFormat);
    if algorithm == Ed25519V1 && len != 32 then Err(InvalidFileFormat)
    else
      var (secret, rest) :- Take(r2, len, InvalidFileFormat);
      if rest != [] then Err(InvalidFileFormat) else Ok(SigningKey(algorithm, secret))
  }

  /** The version, the device id and the public key that start the keypair bytes. */
  function TakeOwner(bytes: Bytes): Result<((Bytes16, Bytes32), Bytes), DeviceError> {
    var (version, r1) :- TakeU8(bytes, InvalidFileFormat);
    if version != 1 then Err(InvalidFileFormat)
    else
      var (deviceId, r2) :- Take(r1, 16, InvalidFileFormat);
      var (classicalPublic, r3) :- Take(r2, 32, InvalidFileFormat);
      Ok(((deviceId, classicalPublic), r3))
  }

  /** `deserialize_keypair_bytes`. */
  function ParseKeypair(s: Suite, bytes: Bytes): Result<(Bytes16, Bytes32, Keypair), DeviceError> {
    var ((deviceId, classicalPublic), r1) :- TakeOwner(bytes);
    var (classical, r2) :- Take(r1, 32, InvalidFileFormat);
    var (pqc, r3) :- Take(r2, 2400, InvalidFileFormat);
    var signing :- ParsePrivateKey(r3);
    if s.x25519Public(classical) != classicalPublic then Err(InvalidFileFormat)
    else Ok((deviceId, classicalPublic, Keypair(classical, pqc, signing)))
  }

  predicate PrivateKeyFits(k: SigningKey) { |k.bytes| < TWO_32 && (k.algorithm == Ed25519V1 ==> |k.bytes| == 32) }

  /** Reading written keypair bytes returns the keypair exactly when its signing key fits its
      length field and the public X25519 key is that of the private one. */
  lemma KeypairRoundTrip(s: Suite, deviceId: Bytes16, classicalPublic: Bytes32, kp: Keypair)
    ensures ParseKeypair(s, KeypairBytes(deviceId, classicalPublic, kp)) ==
              if PrivateKeyFits(kp.signing) && s.x25519Public(kp.classical) == classicalPublic
              then Ok((deviceId, classicalPublic, kp)) else Err(InvalidFileFormat)
  {
    hide TakeU8, PrivateKeyBytes, ParsePrivateKey;
    var t5 := PrivateKeyBytes(kp.signing);
    var t4 := kp.pqc + t5;
    var t3 := kp.classical + t4;
    var t2 := classicalPublic + t3;
    TakeU8Append(1, deviceId + t2, InvalidFileFormat);
    TakeAppend(deviceId, t2, InvalidFileFormat);
    TakeAppend(classicalPublic, t3, InvalidFileFormat);
    TakeAppend(kp.classical, t4, InvalidFileFormat);
    TakeAppend(kp.pqc, t5, InvalidFileFormat);
    PrivateKeyRoundTrip(kp.signing);
  }

  lemma PrivateKeyRoundTrip(k: SigningKey)
    ensures ParsePrivateKey(PrivateKeyBytes(k)) == if PrivateKeyFits(k) then Ok(k) else Err(InvalidFileFormat)
  {
    hide TakeU16, TakeU32, U16, U32;
    var len := Saturated(|k.bytes|);
    TakeU16Append(AlgorithmWord(k.algorithm), U32(len) + k.bytes, InvalidFileFormat);
    TakeU32Append(len, k.bytes, InvalidFileFormat);
    TakeSecret(k.bytes);
  }

  lemma TakeSecret(b: Bytes)
    ensures Take(b, Saturated(|b|), InvalidFileFormat).Ok?
    ensures |b| < TWO_32 ==> Take(b, Saturated(|b|), InvalidFileFormat) == Ok((b, []))
    ensures |b| >= TWO_32 ==> Take(b, Saturated(|b|), InvalidFileFormat).value.1 != []
  {
    var n := Saturated(|b|);
    assert b[..n] + b[n..] == b;
    if |b| < TWO_32 { assert b[..n] == b; } else { assert |b[n..]| > 0; }
  }

  /** Accepted keypair bytes are the ones written for what they return. */
  lemma AcceptedKeypairIsCanonical(s: Suite, bytes: Bytes)
    requires ParseKeypair(s, bytes).Ok?
    ensures var (deviceId, classicalPublic, kp) := ParseKeypair(s, bytes).value;
            && PrivateKeyFits(kp.signing) && s.x25519Public(kp.classical) == classicalPublic
            && KeypairBytes(deviceId, classicalPublic, kp) == bytes
  {
    hide PrivateKeyBytes, ParsePrivateKey, PrivateKeyFits;
    var (owner, r1) := TakeOwner(bytes).value;
    var (classical, r2) := Take(r1, 32, InvalidFileFormat).value;
    var (pqc, r3) := Take(r2, 2400, InvalidFileFormat).value;
    AcceptedPrivateKeyIsCanonical(r3);
  }

  lemma AcceptedPrivateKeyIsCanonical(bytes: Bytes)
    requires ParsePrivateKey(bytes).Ok?
    ensures var k := ParsePrivateKey(bytes).value;
            PrivateKeyFits(k) && PrivateKeyBytes(k) == bytes
  {
    hide U16, U32;
    var k := ParsePrivateKey(bytes).value;
    assert k.bytes + [] == k.bytes;
  }

  // ---- the sealed file -------------------------------------------------------------------------------------

  const KEYFILE_MAGIC: Bytes := [0x4D, 0x53, 0x44, 0x4B, 0x50, 0x01]
  const KEYFILE_VERSION: byte := 1

  /** "meissnerseal.device.keyfile.v1" */
  const KEYFILE_DOMAIN: Bytes := [
    0x6D, 0x65, 0x69, 0x73, 0x73, 0x6E, 0x65, 0x72, 0x73, 0x65, 0x61, 0x6C, 0x2E, 0x64, 0x65, 0x76, 0x69, 0x63, 0x65,
    0x2E, 0x6B, 0x65, 0x79, 0x66, 0x69, 0x6C, 0x65, 0x2E, 0x76, 0x31]

  datatype KeyFile = KeyFile(identity: Bytes, fingerprint: Bytes32, nonce: Bytes24, ciphertext: Bytes)

  /** `serialize_sealed_device_key_file`. */
  function SerializeKeyFile(f: KeyFile): Result<Bytes, DeviceError> {
    if |f.identity| >= TWO_32 || |f.ciphertext| >= TWO_32 then Err(InvalidFileFormat)
    else
      Ok(KEYFILE_MAGIC + ([KEYFILE_VERSION] + (U32(|f.identity|) + (f.identity + (f.fingerprint + (f.nonce
         + (U32(|f.ciphertext|) + f.ciphertext)))))))
  }

  /** `parse_sealed_device_key_file`. */
  function ParseKeyFile(bytes: Bytes): Result<KeyFile, DeviceError> {
    var (magic, r1) :- Take(bytes, 6, InvalidFileFormat);
    if magic != KEYFILE_MAGIC then Err(InvalidFileFormat)
    else
      var (version, r2) :- TakeU8(r1, InvalidFileFormat);
      if version != KEYFILE_VERSION then Err(InvalidFileFormat)
      else
        var (identityLen, r3) :- TakeU32(r2, InvalidFileFormat);
        var (identity, r4) :- Take(r3, identityLen, InvalidFileFormat);
        var (fingerprint, r5) :- Take(r4, 32, InvalidFileFormat);
        var (nonce, r6) :- Take(r5, 24, InvalidFileFormat);
        var (ciphertextLen, r7) :- TakeU32(r6, InvalidFileFormat);
        var (ciphertext, r8) :- Take(r7, ciphertextLen, InvalidFileFormat);
        if r8 != [] then Err(InvalidFileFormat) else Ok(KeyFile(identity, fingerprint, nonce, ciphertext))
  }

  lemma KeyFileRoundTrip(f: KeyFile)
    requires SerializeKeyFile(f).Ok?
    ensures ParseKeyFile(SerializeKeyFile(f).value) == Ok(f)
  {
    hide U32, TakeU32, TakeU8;
    var t7 := U32(|f.ciphertext|) + f.ciphertext;
    var t6 := f.nonce + t7;
    var t5 := f.fingerprint + t6;
    var t4 := f.identity + t5;
    var t3 := U32(|f.identity|) + t4;
    var t2 := [KEYFILE_VERSION] + t3;
    TakeAppend(KEYFILE_MAGIC, t2, InvalidFileFormat);
    TakeU8Append(KEYFILE_VERSION, t3, InvalidFileFormat);
    TakeU32Append(|f.identity|, t4, InvalidFileFormat);
    TakeAppend(f.identity, t5, InvalidFileFormat);
    TakeAppend(f.fingerprint, t6, InvalidFileFormat);
    TakeAppend(f.nonce, t7, InvalidFileFormat);
    TakeU32Append(|f.ciphertext|, f.ciphertext, InvalidFileFormat);
    assert f.ciphertext + [] == f.ciphertext;
    TakeAppend(f.ciphertext, [], InvalidFileFormat);
  }

  lemma AcceptedKeyFileIsCanonical(bytes: Bytes)
    requires ParseKeyFile(bytes).Ok?
    ensures SerializeKeyFile(ParseKeyFile(bytes).value) == Ok(bytes)
  {
    hide U32;
    var f := ParseKeyFile(bytes).value;
    assert f.ciphertext + [] == f.ciphertext;
  }

  /** `sealed_device_key_file_aad`. */
  function KeyFileAad(identity: Bytes, fingerprint: Bytes32): Result<Bytes, DeviceError> {
    if |identity| >= TWO_32 then Err(InvalidFileFormat)
    else Ok(KEYFILE_DOMAIN + (U32(|identity|) + (identity + fingerprint)))
  }

  lemma KeyFileAadIsInjective(a: Bytes, fa: Bytes32, b: Bytes, fb: Bytes32)
    requires KeyFileAad(a, fa).Ok? && KeyFileAad(a, fa) == KeyFileAad(b, fb)
    ensures a == b && fa == fb
  {
    var x := KeyFileAad(a, fa).value[30..];
    assert x == U32(|a|) + (a + fa) && x == U32(|b|) + (b + fb);
    TakeU32Append(|a|, a + fa, InvalidFileFormat);
    TakeU32Append(|b|, b + fb, InvalidFileFormat);
    assert a == (a + fa)[..|a|] && fa == (a + fa)[|a|..] && b == (b + fb)[..|b|] && fb == (b + fb)[|b|..];
  }

  /** `identity_fingerprint`. */
  function Fingerprint(s: Suite, id: Identity): Bytes32 { s.hash(IdentityFields(id)) }

  /** The message both halves of the signing key must agree on, with its domain prefix. */
  const CHECK_MESSAGE: Bytes := [
    // "meissnerseal.device.enrollment.v1\0"
    0x6D, 0x65, 0x69, 0x73, 0x73, 0x6E, 0x65, 0x72, 0x73, 0x65, 0x61, 0x6C, 0x2E, 0x64, 0x65, 0x76, 0x69, 0x63, 0x65,
    0x2E, 0x65, 0x6E, 0x72, 0x6F, 0x6C, 0x6C, 0x6D, 0x65, 0x6E, 0x74, 0x2E, 0x76, 0x31, 0x00,
    // "meissnerseal.device.keyfile.check.v1"
    0x6D, 0x65, 0x69, 0x73, 0x73, 0x6E, 0x65, 0x72, 0x73, 0x65, 0x61, 0x6C, 0x2E, 0x64, 0x65, 0x76, 0x69, 0x63, 0x65,
    0x2E, 0x6B, 0x65, 0x79, 0x66, 0x69, 0x6C, 0x65, 0x2E, 0x63, 0x68, 0x65, 0x63, 0x6B, 0x2E, 0x76, 0x31]

  /** `validate_signing_key_matches_public`. */
  predicate SigningKeysMatch(s: Suite, secret: SigningKey, public: SigningKey) {
    match s.sign(secret, CHECK_MESSAGE)
    case None => false
    case Some(sig) => s.verify(public, CHECK_MESSAGE, sig)
  }

  /** `rebuild_identity_from_keypair`. */
  function Rebuild(s: Suite, id: Identity, kp: Keypair): Result<Identity, DeviceError> {
    if id.signing.None? then Err(MissingSigningKey)
    else if !SigningKeysMatch(s, kp.signing, id.signing.value) then Err(IdentityFingerprintMismatch)
    else Ok(id.(classical := s.x25519Public(kp.classical)))
  }

  /** `SealedDeviceKeyFile::seal`. */
  function SealKeys(s: Suite, id: Identity, kp: Keypair, dkek: Bytes32, nonce: Bytes24): Result<Bytes, DeviceError> {
    var raw := KeypairBytes(id.deviceId, id.classical, kp);
    var identity :- IdentityBytes(id);
    var aad :- KeyFileAad(identity, Fingerprint(s, id));
    SerializeKeyFile(KeyFile(identity, Fingerprint(s, id), nonce, s.aead.enc(dkek, nonce, raw, aad)))
  }

  /** `SealedDeviceKeyFile::open`. */
  function OpenKeys(s: Suite, bytes: Bytes, dkek: Bytes32): Result<(Identity, Keypair), DeviceError> {
    var f :- ParseKeyFile(bytes);
    var aad :- KeyFileAad(f.identity, f.fingerprint);
    match s.aead.dec(dkek, f.nonce, f.ciphertext, aad)
    case None => Err(OpenFailed)
    case Some(raw) =>
      var id :- ParseIdentity(f.identity);
      var (deviceId, classicalPublic, kp) :- ParseKeypair(s, raw);
      if id.deviceId != deviceId || id.classical != classicalPublic then Err(IdentityFingerprintMismatch)
      else
        var derived :- Rebuild(s, id, kp);
        if f.fingerprint != Fingerprint(s, derived) then Err(IdentityFingerprintMismatch) else Ok((derived, kp))
  }

  /** What a sealed pair must satisfy to be opened again. */
  predicate Coherent(s: Suite, id: Identity, kp: Keypair) {
    && Portable(id) && id.signing.Some?
    && PrivateKeyFits(kp.signing)
    && s.x25519Public(kp.classical) == id.classical
    && SigningKeysMatch(s, kp.signing, id.signing.value)
  }

  /** Opening a sealed key file returns the sealed identity and keypair exactly when the two are
      coherent: a valid identity with a signing key, whose public keys are those of the
      keypair. Otherwise the file does not open. */
  lemma SealedKeysOpenExactly(s: Suite, id: Identity, kp: Keypair, dkek: Bytes32, nonce: Bytes24)
    requires Lawful(s.aead) && SealKeys(s, id, kp, dkek, nonce).Ok?
    ensures var r := OpenKeys(s, SealKeys(s, id, kp, dkek, nonce).value, dkek);
            if Coherent(s, id, kp) then r == Ok((id, kp)) else r.Err?
  {
    hide Lawful, IdentityBytes, ParseIdentity, KeypairBytes, ParseKeypair, SerializeKeyFile, ParseKeyFile, KeyFileAad,
         Fingerprint, SigningKeysMatch, NewSigningKey;
    var raw := KeypairBytes(id.deviceId, id.classical, kp);
    var identity := IdentityBytes(id).value;
    var fp := Fingerprint(s, id);
    var aad := KeyFileAad(identity, fp).value;
    LawfulAt(s.aead, dkek, nonce, raw, aad);
    KeyFileRoundTrip(KeyFile(identity, fp, nonce, s.aead.enc(dkek, nonce, raw, aad)));
    FitsWhenWritten(id);
    IdentityRoundTrip(id);
    KeypairRoundTrip(s, id.deviceId, id.classical, kp);
  }

  lemma FitsWhenWritten(id: Identity)
    ensures IdentityBytes(id).Ok? <==> LengthsFit(id)
  {}

  /** Whatever bytes are opened, the result is coherent, its bytes are the ones in the file,
      and the file carries its fingerprint. */
  lemma OpenedKeysAreCoherent(s: Suite, bytes: Bytes, dkek: Bytes32)
    requires OpenKeys(s, bytes, dkek).Ok?
    ensures var (id, kp) := OpenKeys(s, bytes, dkek).value;
            var f := ParseKeyFile(bytes).value;
            && Coherent(s, id, kp)
            && ParseKeyFile(bytes).Ok? && IdentityBytes(id) == Ok(f.identity) && f.fingerprint == Fingerprint(s, id)
            && KeyFileAad(f.identity, f.fingerprint).Ok?
            && s.aead.dec(dkek, f.nonce, f.ciphertext, KeyFileAad(f.identity, f.fingerprint).value)
               == Some(KeypairBytes(id.deviceId, id.classical, kp))
  {
    hide IdentityBytes, ParseIdentity, KeypairBytes, ParseKeypair, ParseKeyFile, KeyFileAad, Fingerprint,
         SigningKeysMatch, NewSigningKey, Portable;
    var f := ParseKeyFile(bytes).value;
    var raw := s.aead.dec(dkek, f.nonce, f.ciphertext, KeyFileAad(f.identity, f.fingerprint).value).value;
    AcceptedIdentityIsCanonical(f.identity);
    AcceptedKeypairIsCanonical(s, raw);
  }

  /** The key file key seals only what `seal` was called with. */
  ghost predicate HonestKeyLog(s: Suite, log: iset<Seal>, dkek: Bytes32, sealed: iset<(Identity, Keypair)>) {
    forall e :: e in log && e.key == dkek ==> exists p :: p in sealed && IsSealOf(s, e, p.0, p.1)
  }

  predicate IsSealOf(s: Suite, e: Seal, id: Identity, kp: Keypair) {
    && IdentityBytes(id).Ok?
    && KeyFileAad(IdentityBytes(id).value, Fingerprint(s, id)) == Ok(e.aad)
    && e.plaintext == KeypairBytes(id.deviceId, id.classical, kp)
  }

  /** With an ideal AEAD, whatever bytes are offered, a key file opens only to a pair that was
      sealed under that key. */
  lemma OpenedKeysWereSealed(s: Suite, log: iset<Seal>, dkek: Bytes32, sealed: iset<(Identity, Keypair)>, bytes: Bytes)
    requires Ideal(s.aead, log) && HonestKeyLog(s, log, dkek, sealed) && OpenKeys(s, bytes, dkek).Ok?
    ensures OpenKeys(s, bytes, dkek).value in sealed
  {
    hide OpenKeys, IdentityBytes, ParseIdentity, KeypairBytes, ParseKeypair, ParseKeyFile, KeyFileAad, Fingerprint,
         SigningKeysMatch;
    OpenedKeysAreCoherent(s, bytes, dkek);
    var (id, kp) := OpenKeys(s, bytes, dkek).value;
    var f := ParseKeyFile(bytes).value;
    var e := Seal(dkek, f.nonce, KeypairBytes(id.deviceId, id.classical, kp),
                  KeyFileAad(f.identity, f.fingerprint).value);
    assert e in log;
    var p :| p in sealed && IsSealOf(s, e, p.0, p.1);
    KeyFileAadIsInjective(f.identity, f.fingerprint, IdentityBytes(p.0).value, Fingerprint(s, p.0));
    SameIdentity(id, p.0);
    KeypairRoundTrip(s, id.deviceId, id.classical, kp);
    KeypairRoundTrip(s, p.0.deviceId, p.0.classical, p.1);
  }

  lemma SameIdentity(a: Identity, b: Identity)
    requires Portable(a) && IdentityBytes(a).Ok? && IdentityBytes(a) == IdentityBytes(b)
    ensures a == b
  {
    hide IdentityBytes, ParseIdentity;
    FitsWhenWritten(a);
    FitsWhenWritten(b);
    IdentityRoundTrip(a);
    IdentityRoundTrip(b);
  }

  // ---- the cursor parser --------------------------------------------------------------------------------------

  /** `deserialize_identity_bytes` over its cursor parser. */
  method ParseIdentityBytes(bytes: Bytes) returns (r: Result<Identity, DeviceError>)
    ensures r == ParseIdentity(bytes)
  {
    hide TakeName, TakeSigning, Take, TakeU64, NewSigningKey;
    var parser := new ByteParser(bytes, InvalidFileFormat);
    var version :- parser.TakeByte();
    if version != 1 { return Err(InvalidFileFormat); }
    var deviceId :- parser.TakeSlice(16);
    var name :- NameField(parser);
    var classical :- parser.TakeSlice(32);
    var pqc :- parser.TakeSlice(1184);
    var signing :- SigningField(parser);
    var createdAt :- parser.TakeU64Le();
    var trustByte :- parser.TakeByte();
    var trust :- TrustFrom(trustByte);
    var done := parser.IsEmpty();
    if !done { return Err(InvalidFileFormat); }
    var id := Identity(deviceId, name, classical, pqc, signing, createdAt, trust);
    var _ :- Validate(id);
    r := Ok(id);
  }

  method NameField(parser: ByteParser<DeviceError>) returns (r: Result<Text, DeviceError>)
    requires parser.Valid() && parser.error == InvalidFileFormat
    modifies parser`offset
    ensures parser.Valid()
    ensures old(TakeName(parser.Rest())).Err? ==> r == Err(old(TakeName(parser.Rest())).error)
    ensures old(TakeName(parser.Rest())).Ok? ==>
              && r == Ok(old(TakeName(parser.Rest())).value.0)
              && parser.Rest() == old(TakeName(parser.Rest())).value.1
  {
    hide ValidUtf8;
    var len :- parser.TakeU32Le();
    var name :- parser.TakeSlice(len);
    if !ValidUtf8(name) { return Err(InvalidFileFormat); }
    r := Ok(name);
  }

  method SigningField(parser: ByteParser<DeviceError>) returns (r: Result<Option<SigningKey>, DeviceError>)
    requires parser.Valid() && parser.error == InvalidFileFormat
    modifies parser`offset
    ensures parser.Valid()
    ensures old(TakeSigning(parser.Rest())).Err? ==> r == Err(old(TakeSigning(parser.Rest())).error)
    ensures old(TakeSigning(parser.Rest())).Ok? ==>
              && r == Ok(old(TakeSigning(parser.Rest())).value.0)
              && parser.Rest() == old(TakeSigning(parser.Rest())).value.1
  {
    hide Take, TakeU16, TakeU32;
    var flag :- parser.TakeByte();
    if flag == 0 { return Ok(None); }
    if flag != 1 { return Err(InvalidFileFormat); }
    var word :- parser.TakeU16Le();
    var algorithm :- AlgorithmOf(word);
    var len :- parser.TakeU32Le();
    var bytes :- parser.TakeSlice(len);
    var key :- NewSigningKey(algorithm, bytes);
    r := Ok(Some(key));
  }

  /** `deserialize_keypair_bytes` over its cursor parser. */
  method ParseKeypairBytes(s: Suite, bytes: Bytes) returns (r: Result<(Bytes16, Bytes32, Keypair), DeviceError>)
    ensures r == ParseKeypair(s, bytes)
  {
    hide Take, TakeOwner, ParsePrivateKey;
    var parser := new ByteParser(bytes, InvalidFileFormat);
    var owner :- OwnerFields(parser);
    var classical :- parser.TakeSlice(32);
    var pqc :- parser.TakeSlice(2400);
    var signing :- PrivateKeyField(parser);
    if s.x25519Public(classical) != owner.1 { return Err(InvalidFileFormat); }
    r := Ok((owner.0, owner.1, Keypair(classical, pqc, signing)));
  }

  method OwnerFields(parser: ByteParser<DeviceError>) returns (r: Result<(Bytes16, Bytes32), DeviceError>)
    requires parser.Valid() && parser.error == InvalidFileFormat
    modifies parser`offset
    ensures parser.Valid()
    ensures old(TakeOwner(parser.Rest())).Err? ==> r == Err(old(TakeOwner(parser.Rest())).error)
    ensures old(TakeOwner(parser.Rest())).Ok? ==>
              && r == Ok(old(TakeOwner(parser.Rest())).value.0)
              && parser.Rest() == old(TakeOwner(parser.Rest())).value.1
  {
    hide Take;
    var version :- parser.TakeByte();
    if version != 1 { return Err(InvalidFileFormat); }
    var deviceId :- parser.TakeSlice(16);
    var classicalPublic :- parser.TakeSlice(32);
    r := Ok((deviceId, classicalPublic));
  }

  method PrivateKeyField(parser: ByteParser<DeviceError>) returns (r: Result<SigningKey, DeviceError>)
    requires parser.Valid() && parser.error == InvalidFileFormat
    modifies parser`offset
    ensures r == old(ParsePrivateKey(parser.Rest()))
  {
    hide Take, TakeU16, TakeU32;
    var word :- parser.TakeU16Le();
    var algorithm :- AlgorithmOf(word);
    var len :- parser.TakeU32Le();
    if algorithm == Ed25519V1 && len != 32 { return Err(InvalidFileFormat); }
    var secret :- parser.TakeSlice(len);
    var done := parser.IsEmpty();
    if !done { return Err(InvalidFileFormat); }
    r := Ok(SigningKey(algorithm, secret));
  }

  /** `parse_sealed_device_key_file` over its cursor parser. */
  method ParseKeyFileBytes(bytes: Bytes) returns (r: Result<KeyFile, DeviceError>)
    ensures r == ParseKeyFile(bytes)
  {
    hide Take, TakeU32;
    var parser := new ByteParser(bytes, InvalidFileFormat);
    var magic :- parser.TakeSlice(6);
    if magic != KEYFILE_MAGIC { return Err(InvalidFileFormat); }
    var version :- parser.TakeByte();
    if version != KEYFILE_VERSION { return Err(InvalidFileFormat); }
    var identityLen :- parser.TakeU32Le();
    var identity :- parser.TakeSlice(identityLen);
    var fingerprint :- parser.TakeSlice(32);
    var nonce :- parser.TakeSlice(24);
    var ciphertextLen :- parser.TakeU32Le();
    var ciphertext :- parser.TakeSlice(ciphertextLen);
    var done := parser.IsEmpty();
    if !done { return Err(InvalidFileFormat); }
    r := Ok(KeyFile(identity, fingerprint, nonce, ciphertext));
  }
}
