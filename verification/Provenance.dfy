/** With an ideal AEAD, nothing is ever read from a vault file that was not sealed for
    exactly that place, whatever bytes the file holds. */
module Provenance {
  import opened Wire
  import opened Errors
  import opened Crypto
  import opened SealedTable
  import opened RecordFrame
  import opened ItemPayload
  import opened VaultIndex
  import opened ItemStore
  import FrameExtents
  import Header

  /** One honest call of `build_item_frame`. */
  datatype Build = Build(item: PlainItem, header: Header.VaultHeader, recordId: Bytes16, revisionId: Bytes16,
                         rek: Bytes32, rekNonce: Bytes24, payloadNonce: Bytes24)

  function AadOf(b: Build): Aad { RecordAad(b.header, b.recordId, b.revisionId, KIND_ITEM) }

  predicate IsWrapOf(s: Seal, wrapKey: Bytes32, b: Build) {
    s == Seal(wrapKey, b.rekNonce, b.rek, AadOf(b))
  }

  predicate IsPayloadOf(s: Seal, b: Build) {
    Encodable(b.item) && s == Seal(b.rek, b.payloadNonce, PrintItem(b.item), AadOf(b))
  }

  /** Honest use of keys: the wrapping key seals only record keys of builds, and a record key
      seals only payloads of builds. Seals under any other key are unrestricted. */
  ghost predicate HonestLog(log: iset<Seal>, wrapKey: Bytes32, builds: iset<Build>) {
    forall s :: s in log ==>
      && (s.key == wrapKey ==> exists b :: b in builds && IsWrapOf(s, wrapKey, b))
      && ((exists b :: b in builds && b.rek == s.key) ==> exists b :: b in builds && IsPayloadOf(s, b))
  }

  /** The payload an arbitrary frame opens to was sealed by a build for exactly that record id
      and revision, under the same vault header profile. */
  lemma OpenedPayloadWasSealed(a: Aead, log: iset<Seal>, builds: iset<Build>, wrapKey: Bytes32, h: Header.VaultHeader,
                               recordId: Bytes16, revisionId: Bytes16, frameBytes: Bytes) returns (b: Build)
    requires Ideal(a, log) && HonestLog(log, wrapKey, builds)
    requires OpenItemFrame(a, wrapKey, h, recordId, revisionId, frameBytes).Ok?
    ensures b in builds && b.recordId == recordId && b.revisionId == revisionId && b.header.vaultId == h.vaultId
    ensures Encodable(b.item)
    ensures OpenItemFrame(a, wrapKey, h, recordId, revisionId, frameBytes).value == PrintItem(b.item)
  {
    hide ParseExactFrame, ParseEnvelope, BuildAad, Encodable, PrintItem;
    var frame := ParseExactFrame(frameBytes, h.profiles.aead).value;
    var envelope := ParseEnvelope(frame.ciphertext).value;
    var aad := RecordAad(h, recordId, revisionId, KIND_ITEM);
    var rek := a.dec(wrapKey, envelope.rekNonce, envelope.wrappedRek, aad).value;
    var payload := a.dec(rek, envelope.payloadNonce, envelope.payload, aad).value;
    var wrap := Seal(wrapKey, envelope.rekNonce, rek, aad);
    assert wrap in log;
    var b1 :| b1 in builds && IsWrapOf(wrap, wrapKey, b1);
    var sealed := Seal(rek, envelope.payloadNonce, payload, aad);
    assert sealed in log && b1.rek == rek;
    b :| b in builds && IsPayloadOf(sealed, b);
    AadIsInjective(h.vaultId, h.formatVersion, h.profiles, recordId, revisionId, KIND_ITEM,
                   b.header.vaultId, b.header.formatVersion, b.header.profiles, b.recordId, b.revisionId, KIND_ITEM);
  }

  /** For arbitrary loaded bytes, every successful `read_item` returns an item that was
      built for exactly the record id and revision of the table entry. */
  lemma ReadItemsWereBuilt(a: Aead, log: iset<Seal>, builds: iset<Build>, wrapKey: Bytes32, l: Loaded, e: Entry)
    requires Ideal(a, log) && HonestLog(log, wrapKey, builds)
    requires ReadItem(a, wrapKey, l, e).Ok?
    ensures exists b :: b in builds && b.item == ReadItem(a, wrapKey, l, e).value && b.recordId == e.recordId
                        && b.revisionId == e.revisionId && b.header.vaultId == l.header.vaultId
  {
    hide Ideal, HonestLog, OpenItemFrame, PrintItem, DeserializePayload, Encodable, Within;
    var frameBytes := ExistingFrame(l, e).value;
    var b := OpenedPayloadWasSealed(a, log, builds, wrapKey, l.header, e.recordId, e.revisionId, frameBytes);
    PayloadRoundTrip(b.item);
  }

  /** `with_item` never shows anything but an item that was built under the requested id. */
  lemma ShownItemsWereBuilt(env: Env, log: iset<Seal>, builds: iset<Build>, keys: Keys, disk: Bytes, id: Bytes16)
    requires Ideal(env.aead, log) && HonestLog(log, keys.itemWrap, builds)
    requires WithItem(env, keys, disk, id).Ok?
    ensures exists b :: b in builds && b.item == WithItem(env, keys, disk, id).value && b.recordId == id
  {
    hide Ideal, HonestLog, LoadVault, ReadItem;
    var l := LoadVault(env, keys.metadata, disk).value;
    var e := l.entries[FindLive(l.entries, id).value];
    ReadItemsWereBuilt(env.aead, log, builds, keys.itemWrap, l, e);
  }

  // ---- the table itself -----------------------------------------------------------------------

  /** A table, and the vault id and schema it was sealed for. */
  datatype Table = Table(vaultId: Bytes16, schema: u16, entries: seq<Entry>)

  predicate IsTableSeal(s: Seal, t: Table) {
    |t.entries| < TWO_32 && s.plaintext == TablePlaintext(t.entries) && s.aad == TableAad(t.vaultId, t.schema)
  }

  /** The metadata key seals only tables that the store wrote. */
  ghost predicate HonestTables(log: iset<Seal>, metadataKey: Bytes, tables: iset<Table>) {
    forall s :: s in log && s.key == metadataKey ==> exists t :: t in tables && IsTableSeal(s, t)
  }

  lemma TableAadIsInjective(v: Bytes16, m: u16, w: Bytes16, n: u16)
    requires TableAad(v, m) == TableAad(w, n)
    ensures v == w && m == n
  {
    assert v == TableAad(v, m)[..16] && w == TableAad(w, n)[..16];
    assert U16(m) == TableAad(v, m)[16..] && U16(n) == TableAad(w, n)[16..];
  }

  /** Whatever the file holds, a table that opens is one that was written, for that vault id and
      that schema. */
  lemma OpenedTableWasWritten(a: Aead, sort: FrameExtents.Sorter, log: iset<Seal>, tables: iset<Table>, bytes: Bytes,
                              offset: nat, len: nat, key: Bytes, vaultId: Bytes16, schema: u16, wrkEnd: nat,
                              fileLen: nat)
    requires Ideal(a, log) && HonestTables(log, key, tables)
    requires OpenTable(a, sort, bytes, offset, len, key, vaultId, schema, wrkEnd, fileLen).Ok?
    ensures Table(vaultId, schema,
                  OpenTable(a, sort, bytes, offset, len, key, vaultId, schema, wrkEnd, fileLen).value) in tables
  {
    hide ParseSection, TablePlaintext, OpenPlaintext, WellPlaced, TableAad;
    var (nonce, ct) := ParseSection(bytes[offset..offset + len]).value;
    var pt := a.dec(key, nonce, ct, TableAad(vaultId, schema)).value;
    var s := Seal(key, nonce, pt, TableAad(vaultId, schema));
    assert s in log;
    var t :| t in tables && IsTableSeal(s, t);
    TableAadIsInjective(vaultId, schema, t.vaultId, t.schema);
    SealedPlaintextOpens(sort, t.entries, wrkEnd, offset + len, fileLen);
  }
}
