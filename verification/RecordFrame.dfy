/** Encrypted record frames, the item envelope inside them, the canonical record AAD
    (vault/format.rs) and the quick frame scanner (vault/engine.rs). */
module RecordFrame {
  import opened Wire
  import opened Errors
  import opened Crypto
  import Header

  const NONCE_LEN: nat := 24
  const AAD_LEN: nat := 79
  const FIXED_PREFIX_LEN: nat := 37
  type Aad = s: Bytes | |s| == AAD_LEN witness Zeros(AAD_LEN)

  datatype Frame = Frame(version: u16, recordId: Bytes16, revisionId: Bytes16, nonce: Bytes24, aad: Aad,
                         ciphertext: Bytes)

  // ---- the canonical AAD ------------------------------------------------------------

  /** b"meissnerseal-aad-v1" */
  const AAD_DOMAIN: Bytes :=
    [0x6D, 0x65, 0x69, 0x73, 0x73, 0x6E, 0x65, 0x72, 0x73, 0x65, 0x61, 0x6C, 0x2D, 0x61, 0x61, 0x64, 0x2D, 0x76, 0x31]

  function PrintU16s(vs: seq<u16>): (b: Bytes)
    ensures |b| == 2 * |vs|
  {
    if vs == [] then [] else PrintU16s(vs[..|vs| - 1]) + U16(vs[|vs| - 1])
  }

  function ProfileWords(version: u16, p: Header.Profiles): (vs: seq<u16>)
    ensures |vs| == 5
  {
    [version, p.schema, p.aead, p.kdf, p.pqc]
  }

  function BuildAad(vaultId: Bytes16, version: u16, p: Header.Profiles, recordId: Bytes16, revisionId: Bytes16,
                    kind: u16): Aad
  {
    AAD_DOMAIN + vaultId + PrintU16s(ProfileWords(version, p)) + recordId + revisionId + U16(kind)
  }

  /** Equal AADs force every bound field to be equal. */
  lemma AadIsInjective(v1: Bytes16, n1: u16, p1: Header.Profiles, id1: Bytes16, rev1: Bytes16, k1: u16,
                       v2: Bytes16, n2: u16, p2: Header.Profiles, id2: Bytes16, rev2: Bytes16, k2: u16)
    requires BuildAad(v1, n1, p1, id1, rev1, k1) == BuildAad(v2, n2, p2, id2, rev2, k2)
    ensures v1 == v2 && n1 == n2 && p1 == p2 && id1 == id2 && rev1 == rev2 && k1 == k2
  {
    hide BuildAad;
    AadFields(v1, n1, p1, id1, rev1, k1);
    AadFields(v2, n2, p2, id2, rev2, k2);
    PrintU16sIsInjective(ProfileWords(n1, p1), ProfileWords(n2, p2));
    assert ProfileWords(n1, p1)[0] == n1 && ProfileWords(n2, p2)[0] == n2;
    assert ProfileWords(n1, p1)[1] == p1.schema && ProfileWords(n2, p2)[1] == p2.schema;
    assert ProfileWords(n1, p1)[2] == p1.aead && ProfileWords(n2, p2)[2] == p2.aead;
    assert ProfileWords(n1, p1)[3] == p1.kdf && ProfileWords(n2, p2)[3] == p2.kdf;
    assert ProfileWords(n1, p1)[4] == p1.pqc && ProfileWords(n2, p2)[4] == p2.pqc;
  }

  /** Where `build_aad` puts each field of the 79 bytes. */
  lemma AadFields(v: Bytes16, n: u16, p: Header.Profiles, id: Bytes16, rev: Bytes16, k: u16)
    ensures var a := BuildAad(v, n, p, id, rev, k);
            && a[19..35] == v && a[35..45] == PrintU16s(ProfileWords(n, p)) && a[45..61] == id && a[61..77] == rev
            && UnLe(a[77..79]) == k
  {
    hide PrintU16s, ProfileWords;
    var a := BuildAad(v, n, p, id, rev, k);
    assert a[19..35] == v;
    assert a[35..45] == PrintU16s(ProfileWords(n, p));
    assert a[45..61] == id;
    assert a[61..77] == rev;
    assert a[77..79] == U16(k);
  }

  lemma {:induction false} PrintU16sIsInjective(vs: seq<u16>, ws: seq<u16>)
    requires |vs| == |ws| && PrintU16s(vs) == PrintU16s(ws)
    ensures vs == ws
  {
    if vs != [] {
      var n := |vs| - 1;
      var b := PrintU16s(vs);
      assert b[..2 * n] == PrintU16s(vs[..n]) && b[..2 * n] == PrintU16s(ws[..n]);
      assert b[2 * n..] == U16(vs[n]) && b[2 * n..] == U16(ws[n]);
      PrintU16sIsInjective(vs[..n], ws[..n]);
      assert UnLe(U16(vs[n])) == UnLe(U16(ws[n]));
      assert vs == vs[..n] + [vs[n]] && ws == ws[..n] + [ws[n]];
    }
  }

  /** `build_aad` fills a zeroed 79-byte array field by field. */
  method FillAad(vaultId: Bytes16, version: u16, p: Header.Profiles, recordId: Bytes16, revisionId: Bytes16,
                 kind: u16) returns (aad: array<byte>)
    ensures fresh(aad) && aad[..] == BuildAad(vaultId, version, p, recordId, revisionId, kind)
  {
    hide ProfileWords;
    aad := new byte[79](_ => 0);
    var cursor := CopyInto(aad, 0, AAD_DOMAIN);
    cursor := CopyInto(aad, cursor, vaultId);
    var values := ProfileWords(version, p);
    ghost var head := AAD_DOMAIN + vaultId;
    assert values[..0] == [] && head + [] == head;
    for i := 0 to 5
      invariant cursor == 35 + 2 * i
      invariant aad[..cursor] == head + PrintU16s(values[..i])
    {
      cursor := CopyInto(aad, cursor, U16(values[i]));
      assert values[..i + 1][..i] == values[..i];
      assert head + (PrintU16s(values[..i]) + U16(values[i])) == head + PrintU16s(values[..i]) + U16(values[i]);
    }
    assert values[..5] == values;
    cursor := CopyInto(aad, cursor, recordId);
    cursor := CopyInto(aad, cursor, revisionId);
    cursor := CopyInto(aad, cursor, U16(kind));
    assert aad[..] == aad[..79];
  }

  method CopyInto(dst: array<byte>, at: nat, src: Bytes) returns (next: nat)
    requires at + |src| <= dst.Length
    modifies dst
    ensures next == at + |src|
    ensures dst[..next] == old(dst[..at]) + src
  {
    next := at + |src|;
    forall i | 0 <= i < |src| { dst[at + i] := src[i]; }
  }

  // ---- frames ----------------------------------------------------------------------

  function FrameLen(f: Frame): nat { FIXED_PREFIX_LEN + NONCE_LEN + 4 + AAD_LEN + 4 + |f.ciphertext| }

  /** The fixed 37 bytes before the nonce; the profile field is always written as 1. */
  function FrameHead(f: Frame): (b: Bytes)
    ensures |b| == FIXED_PREFIX_LEN
  {
    U16(f.version) + (f.recordId + (f.revisionId + (U16(1) + [24])))
  }

  function FrameTail(f: Frame): (b: Bytes)
    requires |f.ciphertext| < TWO_32
    ensures |b| == NONCE_LEN + 4 + AAD_LEN + 4 + |f.ciphertext|
  {
    f.nonce + (U32(AAD_LEN) + (f.aad + (U32(|f.ciphertext|) + f.ciphertext)))
  }

  /** `serialize_record_frame`. */
  function SerializeFrame(f: Frame): (r: Result<Bytes, CoreError>)
    ensures r.Ok? ==> |r.value| == FrameLen(f)
  {
    if |f.ciphertext| >= TWO_32 then Err(Format) else Ok(FrameHead(f) + FrameTail(f))
  }

  lemma FrameHeadFields(f: Frame)
    ensures var b := FrameHead(f);
            && b[0..2] == U16(f.version) && b[2..18] == f.recordId && b[18..34] == f.revisionId
            && b[34..36] == U16(1) && b[36] == 24
  {
    var b := FrameHead(f);
    assert b[0..2] == U16(f.version);
    assert b[2..18] == f.recordId;
    assert b[18..34] == f.revisionId;
    assert b[34..36] == U16(1);
  }

  lemma FrameFields(f: Frame)
    requires SerializeFrame(f).Ok?
    ensures var b := SerializeFrame(f).value;
            && b[0..2] == U16(f.version) && b[2..18] == f.recordId && b[18..34] == f.revisionId
            && b[34..36] == U16(1) && b[36] == 24 && b[37..] == FrameTail(f)
  {
    hide FrameHead, FrameTail;
    FrameHeadFields(f);
    var h, b := FrameHead(f), SerializeFrame(f).value;
    assert b[0..2] == h[0..2] && b[2..18] == h[2..18] && b[18..34] == h[18..34] && b[34..36] == h[34..36];
    assert b[36] == h[36];
  }

  /** `parse_record_frame` on exactly the declared `frame_len` bytes. */
  function ParseExactFrame(frame: Bytes, profile: u16): Result<Frame, CoreError> {
    if |frame| < FIXED_PREFIX_LEN then Err(Format)
    else
      var version := FromU16(frame[0..2]);
      var recordId, revisionId := frame[2..18], frame[18..34];
      if version != Header.FORMAT_VERSION || FromU16(frame[34..36]) != profile || frame[36] != NONCE_LEN
      then Err(Format)
      else
        var (nonce, r1) :- Take(frame[37..], NONCE_LEN, Format);
        var (aadLen, r2) :- TakeU32(r1, Format);
        var (aad, r3) :- Take(r2, aadLen, Format);
        var (ctLen, ct) :- TakeU32(r3, Format);
        if ctLen < TAG_LEN || ctLen != |ct| || aadLen != AAD_LEN then Err(Format)
        else Ok(Frame(version, recordId, revisionId, nonce, aad, ct))
  }

  /** `parse_record_frame`. */
  function ParseFrame(bytes: Bytes, frameLen: u32, profile: u16): Result<Frame, CoreError> {
    if |bytes| < frameLen then Err(Format) else ParseExactFrame(bytes[..frameLen], profile)
  }

  /** A serialized frame parses back to itself, exactly when its version and the expected
      profile are 1 and its ciphertext can hold a tag: tombstone frames never parse. */
  lemma FrameRoundTrip(f: Frame, profile: u16)
    requires SerializeFrame(f).Ok?
    ensures ParseExactFrame(SerializeFrame(f).value, profile)
         == if f.version == 1 && profile == 1 && |f.ciphertext| >= TAG_LEN then Ok(f) else Err(Format)
  {
    hide SerializeFrame;
    FrameFields(f);
    var t3 := U32(|f.ciphertext|) + f.ciphertext;
    var t2 := f.aad + t3;
    var t1 := U32(AAD_LEN) + t2;
    TakeAppend(f.nonce, t1, Format);
    TakeU32Append(AAD_LEN, t2, Format);
    TakeAppend(f.aad, t3, Format);
    TakeU32Append(|f.ciphertext|, f.ciphertext, Format);
  }

  // ---- the quick scanner --------------------------------------------------------------

  function ReadU32At(bytes: Bytes, offset: nat): Result<u32, CoreError> {
    if offset + 4 > |bytes| then Err(Format) else Ok(FromU32(bytes[offset..offset + 4]))
  }

  /** `record_frame_end_offset`: three hops over length fields, no check against the end of
      the file for the ciphertext itself. */
  function FrameEnd(bytes: Bytes, offset: nat): (r: Result<nat, CoreError>)
    ensures r.Ok? ==> offset + FIXED_PREFIX_LEN + 8 <= r.value
  {
    var fixedEnd := offset + FIXED_PREFIX_LEN;
    if fixedEnd > |bytes| then Err(Format)
    else
      var aadLenAt := fixedEnd + bytes[offset + 36];
      var aadLen :- ReadU32At(bytes, aadLenAt);
      var ctLenAt := aadLenAt + 4 + aadLen;
      var ctLen :- ReadU32At(bytes, ctLenAt);
      Ok(ctLenAt + 4 + ctLen)
  }

  /** `record_frame_len_at`. */
  function FrameLenAt(bytes: Bytes, offset: nat): Result<u32, CoreError> {
    var end :- FrameEnd(bytes, offset);
    TryU32(end - offset, Format)
  }

  /** Shifting a scan to the front of the remaining bytes. */
  lemma ScanShift(bytes: Bytes, offset: nat)
    requires offset <= |bytes|
    ensures FrameEnd(bytes, offset) == match FrameEnd(bytes[offset..], 0)
                                       case Ok(n) => Ok(offset + n)
                                       case Err(e) => Err(e)
  {
    hide ReadU32At;
    var s := bytes[offset..];
    if FIXED_PREFIX_LEN <= |s| {
      assert s[36] == bytes[offset + 36];
      var at := FIXED_PREFIX_LEN + s[36];
      ReadShift(bytes, offset, at);
      if ReadU32At(s, at).Ok? { ReadShift(bytes, offset, at + 4 + ReadU32At(s, at).value); }
    }
  }

  lemma ReadShift(bytes: Bytes, offset: nat, at: nat)
    requires offset <= |bytes|
    ensures ReadU32At(bytes[offset..], at) == ReadU32At(bytes, offset + at)
  {
    if offset + at + 4 <= |bytes| {
      assert bytes[offset..][at..at + 4] == bytes[offset + at..offset + at + 4];
    }
  }

  lemma ReadPrefixOnly(a: Bytes, b: Bytes, at: nat)
    requires at + 4 <= |a|
    ensures ReadU32At(a + b, at) == ReadU32At(a, at)
  {
    assert (a + b)[at..at + 4] == a[at..at + 4];
  }

  /** A scan that ends inside `a` does not see what follows `a`. */
  lemma ScanIgnoresSuffix(a: Bytes, b: Bytes)
    requires FrameEnd(a, 0).Ok?
    ensures FrameEnd(a + b, 0) == FrameEnd(a, 0)
  {
    var at := FIXED_PREFIX_LEN + a[36];
    ReadPrefixOnly(a, b, at);
    ReadPrefixOnly(a, b, at + 4 + ReadU32At(a, at).value);
  }

  /** Whenever the full parser accepts a frame of some length, the scanner returns that length. */
  lemma ScannerAgreesOnExactFrame(frame: Bytes, profile: u16)
    requires ParseExactFrame(frame, profile).Ok?
    ensures FrameEnd(frame, 0) == Ok(|frame|)
  {
    var (nonce, r1) := Take(frame[37..], NONCE_LEN, Format).value;
    var (aadLen, r2) := TakeU32(r1, Format).value;
    var (aad, r3) := Take(r2, aadLen, Format).value;
    var (ctLen, ct) := TakeU32(r3, Format).value;
    assert frame[61..] == r1 && frame[65..] == r2;
    assert frame[61..65] == r1[..4];
    assert frame[65 + aadLen..] == r3;
    assert frame[65 + aadLen..69 + aadLen] == r3[..4];
  }

  /** `record_frame_end_offset` agrees with `parse_record_frame` wherever the frame sits and
      whatever follows it. */
  lemma ScannerAgreesWithParser(bytes: Bytes, offset: nat, frameLen: u32, profile: u16)
    requires offset <= |bytes| && ParseFrame(bytes[offset..], frameLen, profile).Ok?
    ensures FrameEnd(bytes, offset) == Ok(offset + frameLen)
    ensures FrameLenAt(bytes, offset) == Ok(frameLen)
  {
    hide FrameEnd, ParseExactFrame;
    var s := bytes[offset..];
    ScannerAgreesOnExactFrame(s[..frameLen], profile);
    ScanIgnoresSuffix(s[..frameLen], s[frameLen..]);
    assert s == s[..frameLen] + s[frameLen..];
    ScanShift(bytes, offset);
  }

  /** The scanner measures every serialized frame exactly, including the tombstone frames
      the parser refuses. */
  lemma ScannerMeasuresSerializedFrames(f: Frame, pre: Bytes, post: Bytes)
    requires SerializeFrame(f).Ok?
    ensures var b := SerializeFrame(f).value;
            FrameEnd(pre + (b + post), |pre|) == Ok(|pre| + |b|)
  {
    hide FrameEnd, SerializeFrame;
    var b := SerializeFrame(f).value;
    ScanOfSerializedFrame(f);
    ScanIgnoresSuffix(b, post);
    ScanShift(pre + (b + post), |pre|);
    assert (pre + (b + post))[|pre|..] == b + post;
  }

  lemma ScanOfSerializedFrame(f: Frame)
    requires SerializeFrame(f).Ok?
    ensures FrameEnd(SerializeFrame(f).value, 0) == Ok(FrameLen(f))
  {
    hide SerializeFrame;
    FrameFields(f);
    var b := SerializeFrame(f).value;
    var tail := FrameTail(f);
    assert b[61..65] == b[37..][24..28] && tail[24..28] == U32(AAD_LEN);
    assert b[144..148] == b[37..][107..111] && tail[107..111] == U32(|f.ciphertext|);
  }

  // ---- the item envelope ---------------------------------------------------------------

  datatype ItemEnvelope = ItemEnvelope(rekNonce: Bytes24, wrappedRek: Bytes, payloadNonce: Bytes24, payload: Bytes)

  function SerializeEnvelope(e: ItemEnvelope): Result<Bytes, CoreError> {
    if e.wrappedRek == [] || e.payload == [] then Err(Format)
    else
      var n :- TryU32(|e.wrappedRek|, Format);
      var m :- TryU32(|e.payload|, Format);
      Ok(e.rekNonce + (U32(n) + (e.wrappedRek + (e.payloadNonce + (U32(m) + e.payload)))))
  }

  function ParseEnvelope(bytes: Bytes): (r: Result<ItemEnvelope, CoreError>)
    ensures r.Ok? ==> SerializeEnvelope(r.value) == Ok(bytes)
  {
    var (rekNonce, r1) :- Take(bytes, 24, Format);
    var (n, r2) :- TakeU32(r1, Format);
    if n == 0 then Err(Format)
    else
      var (wrapped, r3) :- Take(r2, n, Format);
      var (payloadNonce, r4) :- Take(r3, 24, Format);
      var (m, payload) :- TakeU32(r4, Format);
      if m == 0 || m != |payload| then Err(Format)
      else
        assert bytes == rekNonce + (U32(n) + (wrapped + (payloadNonce + (U32(m) + payload))));
        Ok(ItemEnvelope(rekNonce, wrapped, payloadNonce, payload))
  }

  lemma EnvelopeRoundTrip(e: ItemEnvelope)
    requires SerializeEnvelope(e).Ok?
    ensures ParseEnvelope(SerializeEnvelope(e).value) == Ok(e)
  {
    var t4 := U32(|e.payload|) + e.payload;
    var t3 := e.payloadNonce + t4;
    var t2 := e.wrappedRek + t3;
    var t1 := U32(|e.wrappedRek|) + t2;
    TakeAppend(e.rekNonce, t1, Format);
    TakeU32Append(|e.wrappedRek|, t2, Format);
    TakeAppend(e.wrappedRek, t3, Format);
    TakeAppend(e.payloadNonce, t4, Format);
    TakeU32Append(|e.payload|, e.payload, Format);
  }
}
