/** The item operations over the vault file, and their refinement of an ordered map with
    tombstones (item/store.rs). */
module ItemStore {
  import opened Wire
  import opened Errors
  import opened Crypto
  import opened SealedTable
  import opened RecordFrame
  import opened ItemPayload
  import opened VaultIndex
  import FrameExtents
  import Header

  /** The two session keys the store uses. */
  datatype Keys = Keys(itemWrap: Bytes32, metadata: Bytes32)

  /** How the call into the persistence layer ends: completely; before the rename; or after
      the rename with a failing sync of the directory. */
  datatype Io = Committed | NotRenamed | RenamedNotSynced

  /** Everything one mutation draws from the random generator, and its I/O outcome. */
  datatype Draws = Draws(recordId: Bytes16, revisionId: Bytes16, rek: Bytes32, payloadNonce: Bytes24,
                         rekNonce: Bytes24, frameNonce: Bytes24, tableNonce: Bytes24, io: Io)

  // ---- item frames ---------------------------------------------------------------------

  function RecordAad(h: Header.VaultHeader, recordId: Bytes16, revisionId: Bytes16, kind: u16): Aad {
    BuildAad(h.vaultId, h.formatVersion, h.profiles, recordId, revisionId, kind)
  }

  function BuildRecordFrame(recordId: Bytes16, revisionId: Bytes16, ciphertext: Bytes, aad: Aad, nonce: Bytes24):
    Result<Bytes, CoreError>
  {
    SerializeFrame(Frame(Header.FORMAT_VERSION, recordId, revisionId, nonce, aad, ciphertext))
  }

  /** `build_item_frame`: payload under a fresh key, that key under the wrapping key, both
      bound to the same associated data. */
  function BuildItemFrame(a: Aead, item: PlainItem, wrapKey: Bytes32, h: Header.VaultHeader, recordId: Bytes16,
                          revisionId: Bytes16, d: Draws): Result<Bytes, CoreError>
  {
    var aad := RecordAad(h, recordId, revisionId, KIND_ITEM);
    var payload :- SerializePayload(item);
    var envelope := ItemEnvelope(d.rekNonce, a.enc(wrapKey, d.rekNonce, d.rek, aad),
                                 d.payloadNonce, a.enc(d.rek, d.payloadNonce, payload, aad));
    var body :- SerializeEnvelope(envelope);
    BuildRecordFrame(recordId, revisionId, body, aad, d.frameNonce)
  }

  /** The tombstone frame of `delete`: an empty ciphertext. */
  function BuildTombstone(h: Header.VaultHeader, recordId: Bytes16, d: Draws): Result<Bytes, CoreError> {
    BuildRecordFrame(recordId, d.revisionId, [], RecordAad(h, recordId, d.revisionId, KIND_TOMBSTONE), d.frameNonce)
  }

  /** `read_item` up to the decrypted payload. */
  function OpenItemFrame(a: Aead, wrapKey: Bytes32, h: Header.VaultHeader, recordId: Bytes16, revisionId: Bytes16,
                         frameBytes: Bytes): Result<Bytes, CoreError>
  {
    var frame :- ParseExactFrame(frameBytes, h.profiles.aead);
    if frame.recordId != recordId || frame.revisionId != revisionId then Err(Auth)
    else
      var envelope :- ParseEnvelope(frame.ciphertext);
      var aad := RecordAad(h, recordId, revisionId, KIND_ITEM);
      match a.dec(wrapKey, envelope.rekNonce, envelope.wrappedRek, aad)
      case None => Err(Auth)
      case Some(rek) =>
        if |rek| != 32 then Err(CoreError.Crypto)
        else
          match a.dec(rek, envelope.payloadNonce, envelope.payload, aad)
          case None => Err(Auth)
          case Some(payload) => Ok(payload)
  }

  /** `read_item`. */
  function ReadItem(a: Aead, wrapKey: Bytes32, l: Loaded, e: Entry): Result<PlainItem, CoreError> {
    var frameBytes :- ExistingFrame(l, e);
    var payload :- OpenItemFrame(a, wrapKey, l.header, e.recordId, e.revisionId, frameBytes);
    DeserializePayload(payload)
  }

  /** A built item frame opens to the payload that was sealed in it. */
  lemma BuiltFrameOpens(a: Aead, item: PlainItem, wrapKey: Bytes32, h: Header.VaultHeader, recordId: Bytes16,
                        revisionId: Bytes16, d: Draws)
    requires Lawful(a) && h.profiles.aead == 1
    requires BuildItemFrame(a, item, wrapKey, h, recordId, revisionId, d).Ok?
    ensures var f := BuildItemFrame(a, item, wrapKey, h, recordId, revisionId, d).value;
            && f != [] && Encodable(item)
            && OpenItemFrame(a, wrapKey, h, recordId, revisionId, f) == Ok(PrintItem(item))
  {
    hide SerializeFrame, ParseExactFrame, SerializeEnvelope, ParseEnvelope, PrintItem, Encodable, BuildAad, Lawful;
    var aad := RecordAad(h, recordId, revisionId, KIND_ITEM);
    var payload := PrintItem(item);
    LawfulAt(a, wrapKey, d.rekNonce, d.rek, aad);
    LawfulAt(a, d.rek, d.payloadNonce, payload, aad);
    var envelope := ItemEnvelope(d.rekNonce, a.enc(wrapKey, d.rekNonce, d.rek, aad),
                                 d.payloadNonce, a.enc(d.rek, d.payloadNonce, payload, aad));
    EnvelopeRoundTrip(envelope);
    var body := SerializeEnvelope(envelope).value;
    EnvelopeHoldsTag(envelope);
    FrameRoundTrip(Frame(Header.FORMAT_VERSION, recordId, revisionId, d.frameNonce, aad, body), 1);
  }

  lemma EnvelopeHoldsTag(e: ItemEnvelope)
    requires SerializeEnvelope(e).Ok?
    ensures |SerializeEnvelope(e).value| >= TAG_LEN
  {}

  // ---- the operations as functions of the bytes on disk ---------------------------------

  function FindLive(es: seq<Entry>, id: Bytes16): (r: Option<nat>)
    ensures r.Some? ==> r.value < |es| && es[r.value].recordId == id && es[r.value].kind == KIND_ITEM
  {
    if es == [] then None
    else if es[0].recordId == id && es[0].kind == KIND_ITEM then Some(0)
    else match FindLive(es[1..], id)
      case None => None
      case Some(i) => Some(i + 1)
  }

  predicate HasTombstone(es: seq<Entry>, id: Bytes16) {
    exists e :: e in es && e.recordId == id && e.kind == KIND_TOMBSTONE
  }

  /** Stage one record and lay out the new file. */
  function MutatedFile(env: Env, keys: Keys, l: Loaded, position: Option<nat>, r: Record, d: Draws):
    Result<Bytes, CoreError>
  {
    var rs :- StageRecords(l, position, Some(r));
    RewriteBytes(env, keys.metadata, l, rs, d.tableNonce)
  }

  /** The bytes `add` would write. */
  function AddFile(env: Env, keys: Keys, disk: Bytes, item: PlainItem, d: Draws): Result<Bytes, CoreError> {
    var l :- LoadVault(env, keys.metadata, disk);
    var frame :- BuildItemFrame(env.aead, item, keys.itemWrap, l.header, d.recordId, d.revisionId, d);
    MutatedFile(env, keys, l, None, Record(d.recordId, KIND_ITEM, d.revisionId, frame), d)
  }

  function UpdateFile(env: Env, keys: Keys, disk: Bytes, id: Bytes16, item: PlainItem, d: Draws):
    Result<Bytes, CoreError>
  {
    var l :- LoadVault(env, keys.metadata, disk);
    var position := FindLive(l.entries, id);
    if position.None? then Err(NotFound)
    else
      var frame :- BuildItemFrame(env.aead, item, keys.itemWrap, l.header, id, d.revisionId, d);
      MutatedFile(env, keys, l, position, Record(id, KIND_ITEM, d.revisionId, frame), d)
  }

  /** `None`: the id is already tombstoned and nothing is to be written. */
  function DeleteFile(env: Env, keys: Keys, disk: Bytes, id: Bytes16, d: Draws): Result<Option<Bytes>, CoreError> {
    var l :- LoadVault(env, keys.metadata, disk);
    var position := FindLive(l.entries, id);
    if position.None? then
      if HasTombstone(l.entries, id) then Ok(None) else Err(NotFound)
    else
      var frame :- BuildTombstone(l.header, id, d);
      var file :- MutatedFile(env, keys, l, position, Record(id, KIND_TOMBSTONE, d.revisionId, frame), d);
      Ok(Some(file))
  }

  /** `persist_vault_mutation_v2`: the bytes at the path afterwards, and the verdict. */
  function Persist(disk: Bytes, file: Bytes, io: Io): (Bytes, Result<(), CoreError>) {
    match io
    case Committed => (file, Ok(()))
    case NotRenamed => (disk, Err(CoreError.Io))
    case RenamedNotSynced => (file, Err(CoreError.Io))
  }

  function AddVault(env: Env, keys: Keys, disk: Bytes, item: PlainItem, d: Draws): (Bytes, Result<Bytes16, CoreError>) {
    match AddFile(env, keys, disk, item, d)
    case Err(e) => (disk, Err(e))
    case Ok(file) =>
      var (after, r) := Persist(disk, file, d.io);
      (after, if r.Ok? then Ok(d.recordId) else Err(r.error))
  }

  function UpdateVault(env: Env, keys: Keys, disk: Bytes, id: Bytes16, item: PlainItem, d: Draws):
    (Bytes, Result<(), CoreError>)
  {
    match UpdateFile(env, keys, disk, id, item, d)
    case Err(e) => (disk, Err(e))
    case Ok(file) => Persist(disk, file, d.io)
  }

  function DeleteVault(env: Env, keys: Keys, disk: Bytes, id: Bytes16, d: Draws): (Bytes, Result<(), CoreError>) {
    match DeleteFile(env, keys, disk, id, d)
    case Err(e) => (disk, Err(e))
    case Ok(None) => (disk, Ok(()))
    case Ok(Some(file)) => Persist(disk, file, d.io)
  }

  datatype Summary = Summary(id: Bytes16, kind: ItemKind, labelText: Text, tags: seq<Text>)

  function ListFrom(a: Aead, wrapKey: Bytes32, l: Loaded, es: seq<Entry>): Result<seq<Summary>, CoreError> {
    if es == [] then Ok([])
    else if es[0].kind != KIND_ITEM then ListFrom(a, wrapKey, l, es[1..])
    else
      var item :- ReadItem(a, wrapKey, l, es[0]);
      var rest :- ListFrom(a, wrapKey, l, es[1..]);
      Ok([Summary(es[0].recordId, item.kind, item.labelText, item.tags)] + rest)
  }

  /** `list`. */
  function ListVault(env: Env, keys: Keys, disk: Bytes): Result<seq<Summary>, CoreError> {
    var l :- LoadVault(env, keys.metadata, disk);
    ListFrom(env.aead, keys.itemWrap, l, l.entries)
  }

  /** `with_item`: what the closure gets to see. */
  function WithItem(env: Env, keys: Keys, disk: Bytes, id: Bytes16): Result<PlainItem, CoreError> {
    var l :- LoadVault(env, keys.metadata, disk);
    match FindLive(l.entries, id)
    case None => Err(NotFound)
    case Some(i) => ReadItem(env.aead, keys.itemWrap, l, l.entries[i])
  }

  // ---- the abstract vault: an ordered map with tombstones ---------------------------------

  /** An id ever added, with its live item, or a tombstone. */
  datatype Slot = Slot(id: Bytes16, item: Option<PlainItem>)

  predicate DistinctSlots(slots: seq<Slot>) {
    forall i, j :: 0 <= i < j < |slots| ==> slots[i].id != slots[j].id
  }

  function FindSlot(slots: seq<Slot>, id: Bytes16): (r: Option<nat>)
    ensures r.Some? ==> r.value < |slots| && slots[r.value].id == id && slots[r.value].item.Some?
  {
    if slots == [] then None
    else if slots[0].id == id && slots[0].item.Some? then Some(0)
    else match FindSlot(slots[1..], id)
      case None => None
      case Some(i) => Some(i + 1)
  }

  predicate HasId(slots: seq<Slot>, id: Bytes16) { exists s :: s in slots && s.id == id }

  function SlotSummary(id: Bytes16, item: PlainItem): Summary { Summary(id, item.kind, item.labelText, item.tags) }

  /** The live items in table order. */
  function LiveSummaries(slots: seq<Slot>): seq<Summary> {
    if slots == [] then []
    else (if slots[0].item.Some? then [SlotSummary(slots[0].id, slots[0].item.value)] else [])
         + LiveSummaries(slots[1..])
  }

  /** Every live item obeys the ceilings that `add` and `update` do not enforce. */
  predicate AllReadable(slots: seq<Slot>) {
    forall s :: s in slots && s.item.Some? ==> Within(s.item.value, STORE_LIMITS)
  }

  /** A record of the file holds what a slot of the abstract vault says. */
  predicate Holds(a: Aead, wrapKey: Bytes32, h: Header.VaultHeader, r: Record, s: Slot) {
    && r.recordId == s.id && r.frame != []
    && (s.item.None? ==> r.kind == KIND_TOMBSTONE)
    && (s.item.Some? ==>
          && r.kind == KIND_ITEM && Encodable(s.item.value)
          && OpenItemFrame(a, wrapKey, h, r.recordId, r.revisionId, r.frame) == Ok(PrintItem(s.item.value)))
  }

  predicate AllHold(a: Aead, wrapKey: Bytes32, h: Header.VaultHeader, rs: seq<Record>, slots: seq<Slot>) {
    |rs| == |slots| && forall i :: 0 <= i < |slots| ==> Holds(a, wrapKey, h, rs[i], slots[i])
  }

  /** The bytes on disk represent the abstract vault. */
  predicate Refines(env: Env, keys: Keys, disk: Bytes, slots: seq<Slot>) {
    && LoadVault(env, keys.metadata, disk).Ok?
    && var l := LoadVault(env, keys.metadata, disk).value;
       WellFormed(l) && AllHold(env.aead, keys.itemWrap, l.header, KeptRecords(l), slots)
  }

  lemma RefinedSlotsAreDistinct(env: Env, keys: Keys, disk: Bytes, slots: seq<Slot>)
    requires Refines(env, keys, disk, slots)
    ensures DistinctSlots(slots)
  {
    hide LoadVault, OpenItemFrame, PrintItem, FrameEnd, Header.ReadSection;
    var l := LoadVault(env, keys.metadata, disk).value;
    assert DistinctIds(l.entries);
    forall i, j | 0 <= i < j < |slots| ensures slots[i].id != slots[j].id {
      assert l.entries[i].recordId == KeptRecords(l)[i].recordId && l.entries[j].recordId == KeptRecords(l)[j].recordId;
    }
  }

  // ---- every committed mutation is a step of the abstract vault -----------------------------

  /** The records a described file keeps are the ones that were staged. */
  lemma DescribedRecordsAreKept(l: Loaded, rs: seq<Record>)
    requires WellFormed(l) && DescribesAll(l.entries, rs, l.bytes)
    ensures KeptRecords(l) == rs
  {
    hide FrameEnd, Header.ReadSection, DistinctIds;
    forall i | 0 <= i < |rs| ensures KeptRecords(l)[i] == rs[i] {
      assert Describes(l.entries[i], rs[i], l.bytes);
    }
  }

  /** If the staged records hold the new abstract vault, the rewritten file refines it. */
  lemma CommittedFileRefines(env: Env, keys: Keys, l: Loaded, rs: seq<Record>, slots: seq<Slot>, nonce: Bytes24)
    requires GoodEnv(env) && WellFormed(l) && DistinctSlots(slots)
    requires AllHold(env.aead, keys.itemWrap, l.header, rs, slots)
    requires RewriteBytes(env, keys.metadata, l, rs, nonce).Ok?
    ensures Refines(env, keys, RewriteBytes(env, keys.metadata, l, rs, nonce).value, slots)
  {
    hide GoodEnv, RewriteBytes, WellFormed, LoadVault, OpenItemFrame, PrintItem, Tiles, DescribesAll;
    var file := RewriteBytes(env, keys.metadata, l, rs, nonce).value;
    assert NonEmptyFrames(rs) by {
      forall r | r in rs ensures r.frame != [] {
        var i :| 0 <= i < |rs| && rs[i] == r;
        assert Holds(env.aead, keys.itemWrap, l.header, rs[i], slots[i]);
      }
    }
    assert DistinctRecordIds(rs) by {
      forall i, j | 0 <= i < j < |rs| ensures rs[i].recordId != rs[j].recordId {
        assert Holds(env.aead, keys.itemWrap, l.header, rs[i], slots[i]);
        assert Holds(env.aead, keys.itemWrap, l.header, rs[j], slots[j]);
      }
    }
    RewrittenVaultLoads(env, keys.metadata, l, rs, nonce);
    SortsOf(env);
    LoadedIsWellFormed(env, keys.metadata, file);
    DescribedRecordsAreKept(LoadVault(env, keys.metadata, file).value, rs);
  }

  lemma SortsOf(env: Env)
    requires GoodEnv(env)
    ensures FrameExtents.SortsByStart(env.sort) && Lawful(env.aead)
  {}

  /** Positions agree between table and abstract vault. */
  lemma {:induction false} PositionsAgree(a: Aead, wrapKey: Bytes32, h: Header.VaultHeader, es: seq<Entry>,
                                          rs: seq<Record>, slots: seq<Slot>, id: Bytes16)
    requires AllHold(a, wrapKey, h, rs, slots) && |es| == |rs|
    requires forall i :: 0 <= i < |rs| ==> es[i].recordId == rs[i].recordId && es[i].kind == rs[i].kind
    ensures FindLive(es, id) == FindSlot(slots, id)
  {
    hide OpenItemFrame, PrintItem;
    if es != [] {
      assert Holds(a, wrapKey, h, rs[0], slots[0]);
      assert AllHold(a, wrapKey, h, rs[1..], slots[1..]) by {
        forall i | 0 <= i < |slots[1..]| ensures Holds(a, wrapKey, h, rs[1..][i], slots[1..][i]) {
          assert Holds(a, wrapKey, h, rs[i + 1], slots[i + 1]);
        }
      }
      PositionsAgree(a, wrapKey, h, es[1..], rs[1..], slots[1..], id);
    }
  }

  lemma LivePositionsAgree(env: Env, keys: Keys, disk: Bytes, slots: seq<Slot>, id: Bytes16)
    requires Refines(env, keys, disk, slots)
    ensures FindLive(LoadVault(env, keys.metadata, disk).value.entries, id) == FindSlot(slots, id)
  {
    hide LoadVault, AllHold;
    var l := LoadVault(env, keys.metadata, disk).value;
    PositionsAgree(env.aead, keys.itemWrap, l.header, l.entries, KeptRecords(l), slots, id);
  }

  /** `add` appends. */
  function Appended(slots: seq<Slot>, id: Bytes16, item: PlainItem): seq<Slot> { slots + [Slot(id, Some(item))] }

  lemma AddFileRefines(env: Env, keys: Keys, disk: Bytes, slots: seq<Slot>, item: PlainItem, d: Draws)
    requires GoodEnv(env) && Refines(env, keys, disk, slots) && !HasId(slots, d.recordId)
    requires AddFile(env, keys, disk, item, d).Ok?
    ensures Refines(env, keys, AddFile(env, keys, disk, item, d).value, Appended(slots, d.recordId, item))
  {
    hide LoadVault, OpenItemFrame, PrintItem, BuildItemFrame, RewriteBytes, StageRecords, WellFormed, Lawful, Encodable,
         GoodEnv;
    RefinedSlotsAreDistinct(env, keys, disk, slots);
    var l := LoadVault(env, keys.metadata, disk).value;
    var frame := BuildItemFrame(env.aead, item, keys.itemWrap, l.header, d.recordId, d.revisionId, d).value;
    var r := Record(d.recordId, KIND_ITEM, d.revisionId, frame);
    SortsOf(env);
    WellFormedSuite(l);
    BuiltFrameOpens(env.aead, item, keys.itemWrap, l.header, d.recordId, d.revisionId, d);
    StagingIsExact(l, None, r);
    CommittedFileRefines(env, keys, l, KeptRecords(l) + [r], Appended(slots, d.recordId, item), d.tableNonce);
  }

  lemma WellFormedSuite(l: Loaded)
    requires WellFormed(l)
    ensures l.header.profiles.aead == 1
  {
    hide FrameEnd, Header.ReadSection, DistinctIds;
  }

  /** Replacing the record at the position of a live id. */
  lemma ReplacedFileRefines(env: Env, keys: Keys, disk: Bytes, slots: seq<Slot>, position: nat, r: Record, s: Slot,
                            d: Draws)
    requires GoodEnv(env) && Refines(env, keys, disk, slots) && position < |slots| && s.id == slots[position].id
    requires Holds(env.aead, keys.itemWrap, LoadVault(env, keys.metadata, disk).value.header, r, s)
    requires MutatedFile(env, keys, LoadVault(env, keys.metadata, disk).value, Some(position), r, d).Ok?
    ensures Refines(env, keys,
                    MutatedFile(env, keys, LoadVault(env, keys.metadata, disk).value, Some(position), r, d).value,
                    slots[position := s])
  {
    hide LoadVault, OpenItemFrame, PrintItem, RewriteBytes, StageRecords, WellFormed, Encodable, GoodEnv;
    RefinedSlotsAreDistinct(env, keys, disk, slots);
    var l := LoadVault(env, keys.metadata, disk).value;
    StagingIsExact(l, Some(position), r);
    CommittedFileRefines(env, keys, l, KeptRecords(l)[position := r], slots[position := s], d.tableNonce);
  }

  /** `update` replaces the live item, `delete` puts a tombstone in its place; both keep
      every other slot, and the position. */
  lemma UpdateFileRefines(env: Env, keys: Keys, disk: Bytes, slots: seq<Slot>, id: Bytes16, item: PlainItem, d: Draws)
    requires GoodEnv(env) && Refines(env, keys, disk, slots)
    ensures FindSlot(slots, id).None? ==> UpdateFile(env, keys, disk, id, item, d) == Err(NotFound)
    ensures UpdateFile(env, keys, disk, id, item, d).Ok? ==>
              && FindSlot(slots, id).Some?
              && Refines(env, keys, UpdateFile(env, keys, disk, id, item, d).value,
                         slots[FindSlot(slots, id).value := Slot(id, Some(item))])
  {
    hide LoadVault, OpenItemFrame, PrintItem, BuildItemFrame, MutatedFile, WellFormed, Lawful, Encodable, GoodEnv,
         AllHold;
    LivePositionsAgree(env, keys, disk, slots, id);
    if UpdateFile(env, keys, disk, id, item, d).Ok? {
      var l := LoadVault(env, keys.metadata, disk).value;
      var p := FindSlot(slots, id).value;
      SortsOf(env);
      WellFormedSuite(l);
      BuiltFrameOpens(env.aead, item, keys.itemWrap, l.header, id, d.revisionId, d);
      var frame := BuildItemFrame(env.aead, item, keys.itemWrap, l.header, id, d.revisionId, d).value;
      ReplacedFileRefines(env, keys, disk, slots, p, Record(id, KIND_ITEM, d.revisionId, frame),
                          Slot(id, Some(item)), d);
    }
  }

  /** An id whose slot is a tombstone is exactly one for which the table has a tombstone. */
  lemma TombstonesAgree(env: Env, keys: Keys, disk: Bytes, slots: seq<Slot>, id: Bytes16)
    requires Refines(env, keys, disk, slots)
    ensures HasTombstone(LoadVault(env, keys.metadata, disk).value.entries, id) <==> Slot(id, None) in slots
  {
    hide LoadVault, OpenItemFrame, PrintItem, FrameEnd, Header.ReadSection, DistinctIds;
    var l := LoadVault(env, keys.metadata, disk).value;
    var rs := KeptRecords(l);
    if HasTombstone(l.entries, id) {
      var e :| e in l.entries && e.recordId == id && e.kind == KIND_TOMBSTONE;
      var i :| 0 <= i < |l.entries| && l.entries[i] == e;
      assert Holds(env.aead, keys.itemWrap, l.header, rs[i], slots[i]);
      assert slots[i] == Slot(id, None);
    }
    if Slot(id, None) in slots {
      var i :| 0 <= i < |slots| && slots[i] == Slot(id, None);
      assert Holds(env.aead, keys.itemWrap, l.header, rs[i], slots[i]);
      assert l.entries[i] in l.entries;
    }
  }

  lemma DeleteFileRefines(env: Env, keys: Keys, disk: Bytes, slots: seq<Slot>, id: Bytes16, d: Draws)
    requires GoodEnv(env) && Refines(env, keys, disk, slots)
    ensures var r := DeleteFile(env, keys, disk, id, d);
            && (FindSlot(slots, id).None? ==> r == if Slot(id, None) in slots then Ok(None) else Err(NotFound))
            && (r.Ok? && r.value.Some? ==>
                  && FindSlot(slots, id).Some?
                  && Refines(env, keys, r.value.value, slots[FindSlot(slots, id).value := Slot(id, None)]))
  {
    hide LoadVault, OpenItemFrame, PrintItem, MutatedFile, WellFormed, GoodEnv, AllHold, BuildTombstone, HasTombstone;
    LivePositionsAgree(env, keys, disk, slots, id);
    TombstonesAgree(env, keys, disk, slots, id);
    var r := DeleteFile(env, keys, disk, id, d);
    if r.Ok? && r.value.Some? {
      var l := LoadVault(env, keys.metadata, disk).value;
      var frame := BuildTombstone(l.header, id, d).value;
      TombstoneIsNotEmpty(l.header, id, d);
      ReplacedFileRefines(env, keys, disk, slots, FindSlot(slots, id).value,
                          Record(id, KIND_TOMBSTONE, d.revisionId, frame), Slot(id, None), d);
    }
  }

  lemma TombstoneIsNotEmpty(h: Header.VaultHeader, id: Bytes16, d: Draws)
    ensures BuildTombstone(h, id, d).Ok? && BuildTombstone(h, id, d).value != []
  {}

  // ---- what the readers see -----------------------------------------------------------------

  /** A held live slot reads as its item, exactly when the item obeys the ceilings. */
  lemma ReadHeldItem(env: Env, keys: Keys, l: Loaded, i: nat, s: Slot)
    requires WellFormed(l) && i < |l.entries|
    requires Holds(env.aead, keys.itemWrap, l.header, KeptRecords(l)[i], s) && s.item.Some?
    ensures ReadItem(env.aead, keys.itemWrap, l, l.entries[i])
         == if Within(s.item.value, STORE_LIMITS) then Ok(s.item.value) else Err(Format)
  {
    hide OpenItemFrame, PrintItem, DeserializePayload, Within, Encodable, FrameEnd, Header.ReadSection, DistinctIds;
    assert l.entries[i] in l.entries;
    PayloadRoundTrip(s.item.value);
  }

  lemma {:induction false} ListFromSlots(env: Env, keys: Keys, l: Loaded, slots: seq<Slot>, k: nat)
    requires WellFormed(l) && AllHold(env.aead, keys.itemWrap, l.header, KeptRecords(l), slots) && k <= |slots|
    ensures ListFrom(env.aead, keys.itemWrap, l, l.entries[k..])
         == if AllReadable(slots[k..]) then Ok(LiveSummaries(slots[k..])) else Err(Format)
    decreases |slots| - k
  {
    hide OpenItemFrame, PrintItem, Within, Encodable, WellFormed, ReadItem;
    if k < |slots| {
      var rest := slots[k + 1..];
      assert slots[k..] == [slots[k]] + rest;
      assert l.entries[k..][1..] == l.entries[k + 1..] && slots[k..][1..] == rest;
      assert Holds(env.aead, keys.itemWrap, l.header, KeptRecords(l)[k], slots[k]);
      KeptKind(l, k);
      ListFromSlots(env, keys, l, slots, k + 1);
      if slots[k].item.Some? {
        ReadHeldItem(env, keys, l, k, slots[k]);
      } else {
        assert [] + LiveSummaries(rest) == LiveSummaries(rest);
      }
      assert AllReadable(slots[k..]) <==>
             AllReadable(rest) && (slots[k].item.Some? ==> Within(slots[k].item.value, STORE_LIMITS));
    } else {
      assert slots[k..] == [] && l.entries[k..] == [];
    }
  }

  lemma KeptKind(l: Loaded, k: nat)
    requires WellFormed(l) && k < |l.entries|
    ensures KeptRecords(l)[k].kind == l.entries[k].kind && KeptRecords(l)[k].recordId == l.entries[k].recordId
  {
    hide FrameEnd, Header.ReadSection, DistinctIds;
  }

  /** `list` gives the live items in insertion order; one live item beyond the reader's
      ceilings makes the whole listing fail, and nothing else does. */
  lemma ListShowsLiveItems(env: Env, keys: Keys, disk: Bytes, slots: seq<Slot>)
    requires Refines(env, keys, disk, slots)
    ensures ListVault(env, keys, disk) == if AllReadable(slots) then Ok(LiveSummaries(slots)) else Err(Format)
  {
    hide LoadVault, AllHold, AllReadable, LiveSummaries, ListFrom, WellFormed;
    var l := LoadVault(env, keys.metadata, disk).value;
    ListFromSlots(env, keys, l, slots, 0);
    assert l.entries[0..] == l.entries && slots[0..] == slots;
  }

  /** `with_item` shows exactly the item of the live slot; an unknown or deleted id is not
      found. */
  lemma WithItemShowsSlot(env: Env, keys: Keys, disk: Bytes, slots: seq<Slot>, id: Bytes16)
    requires Refines(env, keys, disk, slots)
    ensures WithItem(env, keys, disk, id) ==
              match FindSlot(slots, id)
              case None => Err(NotFound)
              case Some(p) => if Within(slots[p].item.value, STORE_LIMITS) then Ok(slots[p].item.value) else Err(Format)
  {
    hide LoadVault, WellFormed, ReadItem, Within, Holds;
    LivePositionsAgree(env, keys, disk, slots, id);
    var p := FindSlot(slots, id);
    if p.Some? {
      ReadHeldItem(env, keys, LoadVault(env, keys.metadata, disk).value, p.value, slots[p.value]);
    }
  }

  // ---- the loop of list, and the vault file as an object -------------------------------------

  method ListLoop(a: Aead, wrapKey: Bytes32, l: Loaded) returns (r: Result<seq<Summary>, CoreError>)
    ensures r == ListFrom(a, wrapKey, l, l.entries)
  {
    hide ReadItem;
    var summaries: seq<Summary> := [];
    assert l.entries[0..] == l.entries;
    FrontNone(ListFrom(a, wrapKey, l, l.entries));
    for i := 0 to |l.entries|
      invariant ListFrom(a, wrapKey, l, l.entries) == Front(summaries, ListFrom(a, wrapKey, l, l.entries[i..]))
    {
      var entry := l.entries[i];
      assert l.entries[i..][1..] == l.entries[i + 1..];
      if entry.kind == KIND_ITEM {
        var item :- ReadItem(a, wrapKey, l, entry);
        var summary := Summary(entry.recordId, item.kind, item.labelText, item.tags);
        FrontMore(summaries, [summary], ListFrom(a, wrapKey, l, l.entries[i + 1..]));
        summaries := summaries + [summary];
      }
    }
    assert summaries + [] == summaries;
    r := Ok(summaries);
  }
}
