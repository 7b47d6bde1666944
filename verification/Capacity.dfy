/** When a mutation of a well-formed vault can fail other than by I/O: the size of the item,
    and the number of records the table length field has room for. */
module Capacity {
  import opened Wire
  import opened Errors
  import opened Crypto
  import opened SealedTable
  import opened RecordFrame
  import opened ItemPayload
  import opened VaultIndex
  import opened ItemStore
  import Header

  /** Tombstones count. */
  const CAPACITY: nat := 0x400_0000

  /** Bytes that encryption, envelope and frame add to a payload. */
  const FRAME_OVERHEAD: nat := 268

  predicate Storable(item: PlainItem) {
    Encodable(item) && |PrintItem(item)| + FRAME_OVERHEAD < TWO_32
  }

  /** The padded table section fits its 32-bit length field exactly up to the capacity. */
  lemma SectionFits(n: nat)
    ensures SectionLen(n) < TWO_32 <==> n <= CAPACITY
  {
    hide IsPow2, Bucket;
    BucketIsLeastPower(n);
    CapacityIsPower();
    if n > CAPACITY { PowersAreSparse(CAPACITY, Bucket(n)); }
  }

  lemma CapacityIsPower()
    ensures IsPow2(CAPACITY)
  {
    Times16(4);
    Times16(0x40);
    Times16(0x400);
    Times16(0x4000);
    Times16(0x4_0000);
    Times16(0x40_0000);
  }

  lemma Times16(p: nat)
    requires IsPow2(p)
    ensures IsPow2(16 * p)
  {
    assert (2 * p) / 2 == p && (4 * p) / 2 == 2 * p && (8 * p) / 2 == 4 * p && (16 * p) / 2 == 8 * p;
    assert IsPow2(2 * p) && IsPow2(4 * p) && IsPow2(8 * p);
  }

  lemma {:induction false} ConcatLength(rs: seq<Record>)
    requires forall r :: r in rs ==> |r.frame| < TWO_32
    ensures |Concat(rs)| <= TWO_32 * |rs|
  {
    if rs != [] { ConcatLength(rs[1..]); }
  }

  lemma {:induction false} EntriesExactly(rs: seq<Record>, offset: nat)
    requires offset + TWO_32 * |rs| < TWO_64
    ensures EntriesFor(rs, offset).Ok? <==> forall r :: r in rs ==> |r.frame| < TWO_32
    ensures EntriesFor(rs, offset).Ok? ==>
              forall i :: 0 <= i < |rs| ==> EntriesFor(rs, offset).value[i].kind == rs[i].kind
    decreases |rs|
  {
    if rs != [] {
      assert rs == [rs[0]] + rs[1..];
      if |rs[0].frame| < TWO_32 { EntriesExactly(rs[1..], offset + |rs[0].frame|); }
    }
  }

  /** A rewrite of legal records fails only if a frame or the table outgrows its 32-bit length. */
  lemma RewriteSucceedsExactly(env: Env, key: Bytes, l: Loaded, rs: seq<Record>, nonce: Bytes24)
    requires Lawful(env.aead) && WellFormed(l) && forall r :: r in rs ==> LegalKind(r.kind)
    ensures RewriteBytes(env, key, l, rs, nonce).Ok? <==> |rs| <= CAPACITY && forall r :: r in rs ==> |r.frame| < TWO_32
  {
    hide Lawful, EntriesFor, SectionLen, WellFormed, RewriteBytes;
    SectionFits(|rs|);
    var offset := l.wrkOffset + l.wrkLen + SectionLen(|rs|);
    SectionsFit(l);
    if |rs| <= CAPACITY { EntriesExactly(rs, offset); }
    if RewriteBytes(env, key, l, rs, nonce).Ok? {
      var es, tb := RewriteParts(env, key, l, rs, nonce);
    }
    if |rs| <= CAPACITY && EntriesFor(rs, offset).Ok? {
      LaidOutRewriteSucceeds(env, key, l, rs, nonce, EntriesFor(rs, offset).value);
    }
  }

  lemma SectionsFit(l: Loaded)
    requires WellFormed(l)
    ensures Header.HEADER_MIN_LEN <= l.wrkOffset < Header.HEADER_MIN_LEN + TWO_32 && l.wrkLen < TWO_32
    ensures l.wrkOffset + l.wrkLen <= |l.bytes| && l.header.profiles == Header.SUITE
  {
    hide FrameEnd, DistinctIds, Header.ReadSection;
  }

  lemma LaidOutRewriteSucceeds(env: Env, key: Bytes, l: Loaded, rs: seq<Record>, nonce: Bytes24, es: seq<Entry>)
    requires Lawful(env.aead) && WellFormed(l) && |rs| <= CAPACITY
    requires forall r :: r in rs ==> LegalKind(r.kind) && |r.frame| < TWO_32
    requires EntriesFor(rs, l.wrkOffset + l.wrkLen + SectionLen(|rs|)) == Ok(es)
    requires forall i :: 0 <= i < |rs| ==> es[i].kind == rs[i].kind
    ensures RewriteBytes(env, key, l, rs, nonce).Ok?
  {
    hide Lawful, EntriesFor, Concat, SectionLen, WellFormed, PaddedLen, SealTable, RewriteBytes;
    SectionFits(|rs|);
    SectionsFit(l);
    forall e | e in es ensures LegalKind(e.kind) {
      var i :| 0 <= i < |es| && es[i] == e;
      assert rs[i] in rs;
    }
    SealSucceeds(env.aead, key, l.header.vaultId, l.header.profiles.schema, nonce, es);
    SealedLength(env.aead, key, l.header.vaultId, l.header.profiles.schema, nonce, es);
    ConcatLength(rs);
    SectionLenIs(|rs|);
    RewriteOfParts(env, key, l, rs, nonce, es,
                   SealTable(env.aead, key, l.header.vaultId, l.header.profiles.schema, nonce, es).value);
  }

  lemma RewriteOfParts(env: Env, key: Bytes, l: Loaded, rs: seq<Record>, nonce: Bytes24, es: seq<Entry>, tb: Bytes)
    requires Header.HEADER_MIN_LEN <= l.wrkOffset < Header.HEADER_MIN_LEN + TWO_32
    requires l.wrkOffset + l.wrkLen <= |l.bytes|
    requires EntriesFor(rs, l.wrkOffset + l.wrkLen + SectionLen(|rs|)) == Ok(es)
    requires SealTable(env.aead, key, l.header.vaultId, l.header.profiles.schema, nonce, es) == Ok(tb)
    requires |tb| == SectionLen(|rs|) < TWO_32 && l.wrkLen + |tb| + |Concat(rs)| < TWO_64
    ensures RewriteBytes(env, key, l, rs, nonce).Ok?
  {
    hide EntriesFor, Concat, SectionLen, SealTable, FileBytes;
  }

  lemma SectionLenIs(n: nat)
    ensures SectionLen(n) == 4 + SealedTable.NONCE_LEN + TAG_LEN + PaddedLen(n)
  {}

  lemma SealSucceeds(a: Aead, key: Bytes, vaultId: Bytes16, schema: u16, nonce: Bytes24, es: seq<Entry>)
    requires Lawful(a) && schema == Header.SCHEMA_V2 && |es| <= CAPACITY && forall e :: e in es ==> LegalKind(e.kind)
    ensures SealTable(a, key, vaultId, schema, nonce, es).Ok?
  {
    hide Lawful, IsPow2, Bucket;
    SectionFits(|es|);
    BucketIsLeastPower(|es|);
    LawfulAt(a, key, nonce, TablePlaintext(es), TableAad(vaultId, schema));
  }

  /** The length of a frame is that of its payload plus the fixed overhead; the frame is
      built exactly when the item is storable. */
  lemma BuildSucceedsExactly(a: Aead, item: PlainItem, wrapKey: Bytes32, h: Header.VaultHeader, recordId: Bytes16,
                             revisionId: Bytes16, d: Draws)
    requires Lawful(a)
    ensures var f := BuildItemFrame(a, item, wrapKey, h, recordId, revisionId, d);
            Storable(item) <==> f.Ok? && |f.value| < TWO_32
  {
    hide Lawful, BuildAad, PrintItem, Encodable;
    if Encodable(item) {
      var aad := RecordAad(h, recordId, revisionId, KIND_ITEM);
      LawfulAt(a, wrapKey, d.rekNonce, d.rek, aad);
      LawfulAt(a, d.rek, d.payloadNonce, PrintItem(item), aad);
    }
  }

  lemma TombstoneLength(h: Header.VaultHeader, id: Bytes16, d: Draws)
    ensures BuildTombstone(h, id, d).Ok? && |BuildTombstone(h, id, d).value| < TWO_32
  {}

  lemma KeptRecordsFit(l: Loaded)
    requires WellFormed(l)
    ensures forall r :: r in KeptRecords(l) ==> LegalKind(r.kind) && |r.frame| < TWO_32
  {
    hide FrameEnd, DistinctIds, Header.ReadSection;
    forall r | r in KeptRecords(l) ensures LegalKind(r.kind) && |r.frame| < TWO_32 {
      var i :| 0 <= i < |l.entries| && KeptRecords(l)[i] == r;
      assert l.entries[i] in l.entries;
    }
  }

  lemma MutationSucceedsExactly(env: Env, keys: Keys, l: Loaded, position: Option<nat>, r: Record, d: Draws)
    requires Lawful(env.aead) && WellFormed(l) && LegalKind(r.kind) && (position.Some? ==> position.value < |l.entries|)
    ensures MutatedFile(env, keys, l, position, r, d).Ok? <==>
              |r.frame| < TWO_32 && |l.entries| + (if position.None? then 1 else 0) <= CAPACITY
  {
    hide Lawful, WellFormed, RewriteBytes, StageRecords;
    StagingIsExact(l, position, r);
    KeptRecordsFit(l);
    var kept := KeptRecords(l);
    var rs := if position.Some? then kept[position.value := r] else kept + [r];
    assert forall x :: x in rs ==> x in kept || x == r;
    assert r in rs by { assert rs[if position.Some? then position.value else |kept|] == r; }
    RewriteSucceedsExactly(env, keys.metadata, l, rs, d.tableNonce);
  }

  /** `add` gets as far as writing the file exactly when the item is storable and the table,
      tombstones included, has room for one more record. */
  lemma AddSucceedsExactly(env: Env, keys: Keys, disk: Bytes, slots: seq<Slot>, item: PlainItem, d: Draws)
    requires GoodEnv(env) && Refines(env, keys, disk, slots)
    ensures AddFile(env, keys, disk, item, d).Ok? <==> Storable(item) && |slots| < CAPACITY
  {
    hide LoadVault, WellFormed, Lawful, BuildItemFrame, MutatedFile, Holds, Storable;
    SortsOf(env);
    var l := LoadVault(env, keys.metadata, disk).value;
    BuildSucceedsExactly(env.aead, item, keys.itemWrap, l.header, d.recordId, d.revisionId, d);
    var f := BuildItemFrame(env.aead, item, keys.itemWrap, l.header, d.recordId, d.revisionId, d);
    if f.Ok? { MutationSucceedsExactly(env, keys, l, None, Record(d.recordId, KIND_ITEM, d.revisionId, f.value), d); }
  }

  /** Likewise `update` of a live item, which needs no new record. */
  lemma UpdateSucceedsExactly(env: Env, keys: Keys, disk: Bytes, slots: seq<Slot>, id: Bytes16, item: PlainItem,
                              d: Draws)
    requires GoodEnv(env) && Refines(env, keys, disk, slots)
    ensures UpdateFile(env, keys, disk, id, item, d).Ok? <==>
              FindSlot(slots, id).Some? && Storable(item) && |slots| <= CAPACITY
  {
    hide LoadVault, WellFormed, Lawful, BuildItemFrame, MutatedFile, Holds, Storable;
    SortsOf(env);
    LivePositionsAgree(env, keys, disk, slots, id);
    var l := LoadVault(env, keys.metadata, disk).value;
    BuildSucceedsExactly(env.aead, item, keys.itemWrap, l.header, id, d.revisionId, d);
    var f := BuildItemFrame(env.aead, item, keys.itemWrap, l.header, id, d.revisionId, d);
    var p := FindSlot(slots, id);
    if f.Ok? && p.Some? { MutationSucceedsExactly(env, keys, l, p, Record(id, KIND_ITEM, d.revisionId, f.value), d); }
  }

  /** Likewise `delete`, which succeeds for every live item and every tombstone. */
  lemma DeleteSucceedsExactly(env: Env, keys: Keys, disk: Bytes, slots: seq<Slot>, id: Bytes16, d: Draws)
    requires GoodEnv(env) && Refines(env, keys, disk, slots)
    ensures DeleteFile(env, keys, disk, id, d).Ok? <==>
              if FindSlot(slots, id).Some? then |slots| <= CAPACITY else Slot(id, None) in slots
  {
    hide LoadVault, WellFormed, Lawful, BuildTombstone, MutatedFile, Holds, HasTombstone;
    SortsOf(env);
    LivePositionsAgree(env, keys, disk, slots, id);
    TombstonesAgree(env, keys, disk, slots, id);
    var l := LoadVault(env, keys.metadata, disk).value;
    var p := FindSlot(slots, id);
    if p.Some? {
      TombstoneLength(l.header, id, d);
      MutationSucceedsExactly(env, keys, l, p,
                              Record(id, KIND_TOMBSTONE, d.revisionId, BuildTombstone(l.header, id, d).value), d);
    }
  }

  lemma {:induction false} TagsLength(tags: seq<Text>)
    requires forall t :: t in tags ==> |t| <= 256
    ensures |PrintTags(tags)| <= 260 * |tags|
  {
    if tags != [] { TagsLength(tags[1..]); }
  }

  /** Whatever the reader accepts can be stored. */
  lemma ReadableIsStorable(item: PlainItem)
    requires Within(item, STORE_LIMITS)
    ensures Storable(item)
  {
    hide PrintTags;
    TagsLength(item.tags);
  }

  /** One item that no reader accepts is enough: `add` takes it, and from then on `list` fails. */
  lemma OversizedItemBlindsList(env: Env, keys: Keys, disk: Bytes, slots: seq<Slot>, item: PlainItem, d: Draws)
    requires GoodEnv(env) && Refines(env, keys, disk, slots) && !HasId(slots, d.recordId)
    requires Storable(item) && |slots| < CAPACITY && !Within(item, STORE_LIMITS)
    ensures AddFile(env, keys, disk, item, d).Ok?
    ensures ListVault(env, keys, AddFile(env, keys, disk, item, d).value) == Err(Format)
  {
    hide Refines, GoodEnv, AddFile, Storable, Within, ListVault, LiveSummaries, HasId;
    AddSucceedsExactly(env, keys, disk, slots, item, d);
    AddFileRefines(env, keys, disk, slots, item, d);
    var after := Appended(slots, d.recordId, item);
    ListShowsLiveItems(env, keys, AddFile(env, keys, disk, item, d).value, after);
    assert after[|slots|] in after;
  }

  /** And there is one: a secret one byte above the reader's ceiling. */
  lemma OversizedItemExists()
    ensures exists item: PlainItem :: Storable(item) && !Within(item, STORE_LIMITS)
  {
    var item := PlainItem(Password, [], [], Zeros(65_537));
    assert Storable(item) && !Within(item, STORE_LIMITS);
  }
}
