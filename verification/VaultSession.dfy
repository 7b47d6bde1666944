/** Creating a vault and unlocking it (vault/engine.rs, keys/hierarchy.rs). */
module VaultSession {
  import opened Wire
  import opened Errors
  import opened Crypto
  import opened KdfProfile
  import opened SealedTable
  import opened RecordFrame
  import opened VaultIndex
  import opened ItemStore
  import opened VaultRuns
  import Capacity
  import FrameExtents
  import Header

  const MAX_VAULT_FILE_LEN: nat := 64 * 1024 * 1024

  /** The seven session subkeys. */
  datatype SessionKeys = SessionKeys(itemWrap: Bytes32, metadata: Bytes32, audit: Bytes32, syncEnvelope: Bytes32,
                                     deviceEnrollment: Bytes32, recoveryWrapping: Bytes32, exportBundle: Bytes32)

  function StoreKeys(k: SessionKeys): Keys { Keys(k.itemWrap, k.metadata) }

  /** Argon2id followed by the HKDF step to the vault key-encryption key; and the HKDF tree
      below the vault root key. Either may fail. */
  datatype KeyTree = KeyTree(
    keyEncryptionKey: (Bytes, Bytes16, KdfParams) -> Option<Bytes32>,
    subkeys: (Bytes32, Bytes16, Bytes24, u16) -> Option<SessionKeys>)

  // ---- unlock ------------------------------------------------------------------------------

  function WrkAad(h: Header.VaultHeader, recordId: Bytes16, revisionId: Bytes16): Aad {
    BuildAad(h.vaultId, h.formatVersion, h.profiles, recordId, revisionId, KIND_WRAPPED_ROOT_KEY)
  }

  /** `derive_session_keys`. */
  function DeriveSessionKeys(a: Aead, t: KeyTree, password: Bytes, h: Header.VaultHeader, ciphertext: Bytes,
                             nonce: Bytes24, aad: Aad): Result<SessionKeys, CoreError>
  {
    match t.keyEncryptionKey(password, h.vaultId, h.kdfParams)
    case None => Err(CoreError.Crypto)
    case Some(kek) =>
      match a.dec(kek, nonce, ciphertext, aad)
      case None => Err(Auth)
      case Some(vrk) =>
        if |vrk| != 32 then Err(CoreError.Crypto)
        else
          match t.subkeys(vrk, h.vaultId, h.headerNonce, h.profiles.aead)
          case None => Err(CoreError.Crypto)
          case Some(keys) => Ok(keys)
  }

  /** The keys that the wrapped-root-key frame gives up to a password. */
  function UnwrapRoot(a: Aead, t: KeyTree, password: Bytes, h: Header.VaultHeader, wrkFrame: Bytes):
    Result<SessionKeys, CoreError>
  {
    var frame :- ParseExactFrame(wrkFrame, h.profiles.aead);
    var aad := WrkAad(h, frame.recordId, frame.revisionId);
    if frame.aad != aad then Err(Format)
    else DeriveSessionKeys(a, t, password, h, frame.ciphertext, frame.nonce, aad)
  }

  /** `unlock_impl` on the bytes read from the path. */
  function Unlock(env: Env, t: KeyTree, password: Bytes, bytes: Bytes): Result<SessionKeys, CoreError> {
    if password == [] then Err(InvalidState)
    else if |bytes| > MAX_VAULT_FILE_LEN then Err(Format)
    else
      var header :- Header.ParseHeader(bytes);
      var (prefix, _) :- Header.ReadPrefix(bytes);
      if |bytes| < Header.HEADER_MIN_LEN + 8 then Err(Format)
      else
        var wrkOffset := Header.HEADER_MIN_LEN + prefix.headerLen;
        var wrkLen :- FrameLenAt(bytes, wrkOffset);
        var wrkEnd := wrkOffset + wrkLen;
        if wrkEnd > |bytes| then Err(Format)
        else
          var keys :- UnwrapRoot(env.aead, t, password, header, bytes[wrkOffset..wrkEnd]);
          var entries :- OpenTable(env.aead, env.sort, bytes, wrkEnd, prefix.tableLen, keys.metadata, header.vaultId,
                                   header.profiles.schema, wrkEnd, |bytes|);
          Ok(keys)
  }

  function WrkFrame(l: Loaded): Bytes
    requires WellFormed(l)
  {
    l.bytes[l.wrkOffset..l.wrkOffset + l.wrkLen]
  }

  /** Unlocking a file that loads under some keys depends only on the password, the size, and
      what the root frame gives up. */
  lemma UnlockOfLoaded(env: Env, t: KeyTree, password: Bytes, bytes: Bytes, keys: SessionKeys)
    requires FrameExtents.SortsByStart(env.sort)
    requires LoadVault(env, keys.metadata, bytes).Ok?
    ensures var l := LoadVault(env, keys.metadata, bytes).value;
            && WellFormed(l)
            && (UnwrapRoot(env.aead, t, password, l.header, WrkFrame(l)) == Ok(keys) ==>
                  Unlock(env, t, password, bytes) ==
                    if password == [] then Err(InvalidState)
                    else if |bytes| > MAX_VAULT_FILE_LEN then Err(Format) else Ok(keys))
  {
    hide UnwrapRoot, OpenTable, WellFormed, FrameEnd, Header.ParseHeader, Header.ReadPrefix, FrameExtents.SortsByStart;
    LoadedIsWellFormed(env, keys.metadata, bytes);
    var l := LoadVault(env, keys.metadata, bytes).value;
    WrkFitsFile(l);
  }

  lemma WrkFitsFile(l: Loaded)
    requires WellFormed(l)
    ensures l.wrkOffset + l.wrkLen <= |l.bytes| && l.wrkLen >= 45 && l.wrkOffset >= Header.HEADER_MIN_LEN
  {}

  /** Conversely, whatever unlocks also loads, under the unlocked keys. */
  lemma UnlockedLoads(env: Env, t: KeyTree, password: Bytes, bytes: Bytes)
    requires FrameExtents.SortsByStart(env.sort) && Unlock(env, t, password, bytes).Ok?
    ensures var keys := Unlock(env, t, password, bytes).value;
            && LoadVault(env, keys.metadata, bytes).Ok?
            && var l := LoadVault(env, keys.metadata, bytes).value;
               WellFormed(l) && UnwrapRoot(env.aead, t, password, l.header, WrkFrame(l)) == Ok(keys)
  {
    hide UnwrapRoot, OpenTable, WellFormed, FrameEnd, FrameLenAt, Header.ParseHeader, Header.ReadPrefix,
         FrameExtents.SortsByStart;
    var keys := Unlock(env, t, password, bytes).value;
    LoadedIsWellFormed(env, keys.metadata, bytes);
  }

  // ---- rewriting never touches the root ----------------------------------------------------------

  /** Two loaded files with the same header and the same wrapped-root-key frame. */
  predicate SameRoot(l: Loaded, m: Loaded)
    requires WellFormed(l) && WellFormed(m)
  {
    l.header == m.header && l.wrkOffset == m.wrkOffset && WrkFrame(l) == WrkFrame(m)
  }

  lemma RewriteKeepsRoot(env: Env, key: Bytes, l: Loaded, rs: seq<Record>, nonce: Bytes24)
    requires FrameExtents.SortsByStart(env.sort) && WellFormed(l)
    requires RewriteBytes(env, key, l, rs, nonce).Ok?
    requires LoadVault(env, key, RewriteBytes(env, key, l, rs, nonce).value).Ok?
    ensures var m := LoadVault(env, key, RewriteBytes(env, key, l, rs, nonce).value).value;
            WellFormed(m) && SameRoot(l, m)
  {
    hide RewriteBytes, WellFormed, LoadVault, FileBytes, EntriesFor, SealTable, FrameLenAt, FrameEnd, OpenTable, Concat,
         Header.ParseHeader, Header.ReadPrefix, Header.ReadSection, FrameExtents.SortsByStart, BeforeWrk;
    var es, tb := RewriteParts(env, key, l, rs, nonce);
    var wrkEnd := l.wrkOffset + l.wrkLen;
    var hb, wb := l.bytes[Header.HEADER_MIN_LEN..l.wrkOffset], l.bytes[l.wrkOffset..wrkEnd];
    var fs := Concat(rs);
    var file := FileBytes(hb, wb, tb, fs);
    FileHeader(hb, wb, tb, fs);
    WellFormedRoot(l);
    assert FrameLenAt(file, l.wrkOffset) == Ok(|wb|) by {
      FileSplits(hb, wb, tb, fs);
      FrameLenOfSection(BeforeWrk(hb, wb, tb, fs), wb, tb + fs);
    }
    LoadSteps(env, key, file, l.header, |hb|, |tb|, |wb|);
    LoadedIsWellFormed(env, key, file);
    SameSections(l.bytes, l.wrkOffset, wrkEnd, tb, fs);
    var n := Header.HEADER_MIN_LEN;
    assert file[l.wrkOffset..wrkEnd] == file[n..wrkEnd][l.wrkOffset - n..];
    assert l.bytes[l.wrkOffset..wrkEnd] == l.bytes[n..wrkEnd][l.wrkOffset - n..];
  }

  lemma WellFormedRoot(l: Loaded)
    requires WellFormed(l)
    ensures Header.HEADER_MIN_LEN <= l.wrkOffset && l.wrkOffset + l.wrkLen <= |l.bytes| && l.wrkLen < TWO_32
    ensures Header.ReadSection(l.bytes[Header.HEADER_MIN_LEN..l.wrkOffset]) == Ok(l.header)
    ensures FrameEnd(l.bytes[l.wrkOffset..l.wrkOffset + l.wrkLen], 0) == Ok(l.wrkLen)
  {}

  /** After rewriting, the same password unlocks the same keys as before, exactly while the
      staged ids are distinct and the file is at most 64 MiB. */
  lemma RewrittenVaultUnlocks(env: Env, t: KeyTree, password: Bytes, bytes: Bytes, rs: seq<Record>, nonce: Bytes24)
    requires GoodEnv(env) && Unlock(env, t, password, bytes).Ok? && NonEmptyFrames(rs)
    requires var keys := Unlock(env, t, password, bytes).value;
             && LoadVault(env, keys.metadata, bytes).Ok?
             && RewriteBytes(env, keys.metadata, LoadVault(env, keys.metadata, bytes).value, rs, nonce).Ok?
    ensures var keys := Unlock(env, t, password, bytes).value;
            var file := RewriteBytes(env, keys.metadata, LoadVault(env, keys.metadata, bytes).value, rs, nonce).value;
            Unlock(env, t, password, file) == Ok(keys) <==> DistinctRecordIds(rs) && |file| <= MAX_VAULT_FILE_LEN
  {
    hide RewriteBytes, WellFormed, LoadVault, UnwrapRoot, Lawful, FrameExtents.SortsByStart, NonEmptyFrames,
         DescribesAll, Tiles, DistinctRecordIds, Unlock, SectionLen;
    var keys := Unlock(env, t, password, bytes).value;
    NonEmptyPassword(env, t, password, bytes);
    UnlockedLoads(env, t, password, bytes);
    var l := LoadVault(env, keys.metadata, bytes).value;
    var file := RewriteBytes(env, keys.metadata, l, rs, nonce).value;
    RewrittenVaultLoads(env, keys.metadata, l, rs, nonce);
    if DistinctRecordIds(rs) {
      RewriteKeepsRoot(env, keys.metadata, l, rs, nonce);
      UnlockOfLoaded(env, t, password, file, keys);
    } else if Unlock(env, t, password, file) == Ok(keys) {
      UnlockedLoads(env, t, password, file);
    }
  }

  lemma NonEmptyPassword(env: Env, t: KeyTree, password: Bytes, bytes: Bytes)
    requires Unlock(env, t, password, bytes).Ok?
    ensures password != [] && |bytes| <= MAX_VAULT_FILE_LEN
  {}

  // ---- create ---------------------------------------------------------------------------------------

  /** Everything `Vault::create` draws or reads from the clock. */
  datatype CreateDraws = CreateDraws(vaultId: Bytes16, recordId: Bytes16, revisionId: Bytes16, headerNonce: Bytes24,
                                     rootKey: Bytes32, wrapNonce: Bytes24, tableNonce: Bytes24, createdAt: u64)

  function FreshHeader(d: CreateDraws): Header.VaultHeader {
    Header.VaultHeader(d.vaultId, d.createdAt, Header.FORMAT_VERSION, Header.SUITE, CANONICAL, d.headerNonce,
                       Header.SUITE)
  }

  /** The bytes `Vault::create` persists, and the keys they hide. */
  function CreateVault(env: Env, t: KeyTree, password: Bytes, d: CreateDraws): Result<(Bytes, SessionKeys), CoreError> {
    if password == [] then Err(InvalidState)
    else
      var h := FreshHeader(d);
      var aad := WrkAad(h, d.recordId, d.revisionId);
      match t.keyEncryptionKey(password, d.vaultId, CANONICAL)
      case None => Err(CoreError.Crypto)
      case Some(kek) =>
        match t.subkeys(d.rootKey, d.vaultId, d.headerNonce, h.profiles.aead)
        case None => Err(CoreError.Crypto)
        case Some(keys) =>
          var hb :- Header.SerializeHeader(h);
          var wb :- SerializeFrame(Frame(Header.FORMAT_VERSION, d.recordId, d.revisionId, d.wrapNonce, aad,
                                         env.aead.enc(kek, d.wrapNonce, d.rootKey, aad)));
          var tb :- SealTable(env.aead, keys.metadata, d.vaultId, Header.SCHEMA_V2, d.tableNonce, []);
          if |hb| >= TWO_32 || |tb| >= TWO_32 || |wb| + |tb| >= TWO_64 then Err(Format)
          else Ok((FileBytes(hb, wb, tb, []), keys))
  }

  /** The frame `create` writes gives its keys back to the same password. */
  lemma FreshRootUnwraps(a: Aead, t: KeyTree, password: Bytes, d: CreateDraws, kek: Bytes32, keys: SessionKeys)
    requires Lawful(a)
    requires t.keyEncryptionKey(password, d.vaultId, CANONICAL) == Some(kek)
    requires t.subkeys(d.rootKey, d.vaultId, d.headerNonce, Header.SUITE.aead) == Some(keys)
    ensures var h := FreshHeader(d);
            var aad := WrkAad(h, d.recordId, d.revisionId);
            var f := Frame(Header.FORMAT_VERSION, d.recordId, d.revisionId, d.wrapNonce, aad,
                           a.enc(kek, d.wrapNonce, d.rootKey, aad));
            && SerializeFrame(f).Ok? && |SerializeFrame(f).value| == 196
            && FrameEnd(SerializeFrame(f).value, 0) == Ok(196)
            && UnwrapRoot(a, t, password, h, SerializeFrame(f).value) == Ok(keys)
  {
    hide BuildAad, ParseExactFrame, FrameEnd, Lawful, FrameHead, FrameTail;
    var h := FreshHeader(d);
    var aad := WrkAad(h, d.recordId, d.revisionId);
    LawfulAt(a, kek, d.wrapNonce, d.rootKey, aad);
    var f := Frame(Header.FORMAT_VERSION, d.recordId, d.revisionId, d.wrapNonce, aad,
                   a.enc(kek, d.wrapNonce, d.rootKey, aad));
    FrameRoundTrip(f, 1);
    ScanOfSerializedFrame(f);
  }

  /** A created vault unlocks with its password to the keys it was created with, and holds
      no item. */
  lemma CreatedVaultOpens(env: Env, t: KeyTree, password: Bytes, d: CreateDraws)
    requires GoodEnv(env) && CreateVault(env, t, password, d).Ok?
    ensures var (file, keys) := CreateVault(env, t, password, d).value;
            && Refines(env, StoreKeys(keys), file, [])
            && Unlock(env, t, password, file) == Ok(keys)
            && var l := LoadVault(env, keys.metadata, file).value;
               WellFormed(l) && UnwrapRoot(env.aead, t, password, l.header, WrkFrame(l)) == Ok(keys)
  {
    hide UnwrapRoot, WellFormed, LoadVault, SerializeFrame, FrameEnd, SealTable, FileBytes, Lawful,
         FrameExtents.SortsByStart, Header.SerializeHeader, Header.ReadSection, BuildAad, Header.ParseHeader, Unlock,
         FrameLenAt;
    var (file, keys) := CreateVault(env, t, password, d).value;
    var h := FreshHeader(d);
    var kek := t.keyEncryptionKey(password, d.vaultId, CANONICAL).value;
    var aad := WrkAad(h, d.recordId, d.revisionId);
    FreshRootUnwraps(env.aead, t, password, d, kek, keys);
    var hb := Header.SerializeHeader(h).value;
    var wb := SerializeFrame(Frame(Header.FORMAT_VERSION, d.recordId, d.revisionId, d.wrapNonce, aad,
                                   env.aead.enc(kek, d.wrapNonce, d.rootKey, aad))).value;
    var tb := SealTable(env.aead, keys.metadata, d.vaultId, Header.SCHEMA_V2, d.tableNonce, []).value;
    FreshHeaderReads(h);
    SealedLength(env.aead, keys.metadata, d.vaultId, Header.SCHEMA_V2, d.tableNonce, []);
    FreshFileLoads(env, keys.metadata, hb, wb, tb, h, d.tableNonce);
    LoadedIsWellFormed(env, keys.metadata, file);
    FileHeader(hb, wb, tb, []);
    UnlockOfLoaded(env, t, password, file, keys);
  }

  /** Creation fails only for an empty password or in the key derivation. */
  lemma CreateSucceedsExactly(env: Env, t: KeyTree, password: Bytes, d: CreateDraws)
    requires Lawful(env.aead)
    ensures CreateVault(env, t, password, d).Ok? <==>
              && password != [] && t.keyEncryptionKey(password, d.vaultId, CANONICAL).Some?
              && t.subkeys(d.rootKey, d.vaultId, d.headerNonce, Header.SUITE.aead).Some?
  {
    hide Lawful, SerializeFrame, SealTable, FileBytes, Header.SerializeHeader, BuildAad, UnwrapRoot, FrameEnd;
    var h := FreshHeader(d);
    var kek := t.keyEncryptionKey(password, d.vaultId, CANONICAL);
    var keys := t.subkeys(d.rootKey, d.vaultId, d.headerNonce, Header.SUITE.aead);
    if kek.Some? && keys.Some? {
      FreshHeaderWrites(h);
      FreshHeaderReads(h);
      FreshRootUnwraps(env.aead, t, password, d, kek.value, keys.value);
      Capacity.SealSucceeds(env.aead, keys.value.metadata, d.vaultId, Header.SCHEMA_V2, d.tableNonce, []);
      SealedLength(env.aead, keys.value.metadata, d.vaultId, Header.SCHEMA_V2, d.tableNonce, []);
    }
  }

  lemma FreshHeaderWrites(h: Header.VaultHeader)
    requires h.formatVersion == Header.FORMAT_VERSION && h.profiles == h.profileSet == Header.SUITE
    requires h.kdfParams == CANONICAL
    ensures Header.SerializeHeader(h).Ok?
  {}

  /** The assumptions can be met: for every password and every draw there are primitives that
      obey the laws and under which a vault is created. With CreatedVaultOpens this gives a file that
      refines the empty vault, from which every run starts. */
  lemma SessionsExist(password: Bytes, d: CreateDraws)
    requires password != []
    ensures exists env: Env, t: KeyTree :: GoodEnv(env) && CreateVault(env, t, password, d).Ok?
  {
    hide CreateVault;
    LawfulIsSatisfiable();
    FrameExtents.SorterExists();
    var a :| Lawful(a);
    var sort :| FrameExtents.SortsByStart(sort);
    var env := Env(a, sort);
    var key: Bytes32 := Zeros(32);
    var t := KeyTree((_, _, _) => Some(key), (_, _, _, _) => Some(SessionKeys(key, key, key, key, key, key, key)));
    CreateSucceedsExactly(env, t, password, d);
    assert GoodEnv(env);
  }

  lemma FreshHeaderReads(h: Header.VaultHeader)
    requires Header.SerializeHeader(h).Ok?
    ensures |Header.SerializeHeader(h).value| < 200
    ensures Header.ReadSection(Header.SerializeHeader(h).value) == Ok(h)
  {
    hide Header.SerializeHeader, Header.ReadSection, Header.ParseHeader;
    Header.HeaderRoundTrip(h, 0, []);
  }

  lemma FreshFileLoads(env: Env, key: Bytes, hb: Bytes, wb: Bytes, tb: Bytes, h: Header.VaultHeader, nonce: Bytes24)
    requires GoodEnv(env) && |hb| < 200 && |wb| == 196 && FrameEnd(wb, 0) == Ok(|wb|)
    requires Header.ReadSection(hb) == Ok(h)
    requires SealTable(env.aead, key, h.vaultId, h.profiles.schema, nonce, []) == Ok(tb) && |tb| < 200
    ensures var file := FileBytes(hb, wb, tb, []);
            var wrk := Header.HEADER_MIN_LEN + |hb|;
            && LoadVault(env, key, file) == Ok(Loaded(file, h, wrk, |wb|, []))
            && wrk + |wb| <= |file| && file[wrk..wrk + |wb|] == wb
  {
    hide FrameEnd, SealTable, FileBytes, LoadVault, GoodEnv, Header.ReadSection, BeforeWrk;
    LoadOfSections(env, key, hb, wb, [], nonce, [], tb, h);
    FileSplits(hb, wb, tb, []);
    var pre := BeforeWrk(hb, wb, tb, []);
    assert (pre + (wb + (tb + [])))[|pre|..|pre| + |wb|] == wb;
  }

  // ---- create, run, unlock -----------------------------------------------------------------------------

  /** One operation keeps the header and the wrapped-root-key frame. */
  lemma StepKeepsRoot(env: Env, keys: Keys, disk: Bytes, op: Op)
    requires FrameExtents.SortsByStart(env.sort) && LoadVault(env, keys.metadata, disk).Ok?
    requires LoadVault(env, keys.metadata, Step(env, keys, disk, op).0).Ok?
    ensures var l := LoadVault(env, keys.metadata, disk).value;
            var m := LoadVault(env, keys.metadata, Step(env, keys, disk, op).0).value;
            WellFormed(l) && WellFormed(m) && SameRoot(l, m)
  {
    hide LoadVault, WellFormed, BuildItemFrame, BuildTombstone, StageRecords, RewriteBytes, FrameExtents.SortsByStart,
         HasTombstone, FindLive, WrkFrame;
    LoadedIsWellFormed(env, keys.metadata, disk);
    var l := LoadVault(env, keys.metadata, disk).value;
    var after := Step(env, keys, disk, op).0;
    if after != disk {
      var d := op.d;
      var rs := ChangedBy(env, keys, disk, op);
      RewriteKeepsRoot(env, keys.metadata, l, rs, d.tableNonce);
    }
  }

  /** Whatever an operation writes was assembled by `rewrite_vault` from the loaded file. */
  lemma ChangedBy(env: Env, keys: Keys, disk: Bytes, op: Op) returns (rs: seq<Record>)
    requires LoadVault(env, keys.metadata, disk).Ok?
    requires Step(env, keys, disk, op).0 != disk
    ensures RewriteBytes(env, keys.metadata, LoadVault(env, keys.metadata, disk).value, rs, op.d.tableNonce)
         == Ok(Step(env, keys, disk, op).0)
  {
    hide LoadVault, BuildItemFrame, BuildTombstone, StageRecords, RewriteBytes, HasTombstone, FindLive;
    var l := LoadVault(env, keys.metadata, disk).value;
    match op {
      case OpAdd(item, d) =>
        var frame := BuildItemFrame(env.aead, item, keys.itemWrap, l.header, d.recordId, d.revisionId, d).value;
        rs := StageRecords(l, None, Some(Record(d.recordId, KIND_ITEM, d.revisionId, frame))).value;
      case OpUpdate(id, item, d) =>
        var frame := BuildItemFrame(env.aead, item, keys.itemWrap, l.header, id, d.revisionId, d).value;
        rs := StageRecords(l, FindLive(l.entries, id), Some(Record(id, KIND_ITEM, d.revisionId, frame))).value;
      case OpDelete(id, d) =>
        var frame := BuildTombstone(l.header, id, d).value;
        rs := StageRecords(l, FindLive(l.entries, id), Some(Record(id, KIND_TOMBSTONE, d.revisionId, frame))).value;
    }
  }

  /** The root survives every run from a fresh vault. */
  lemma {:induction false} RunKeepsRoot(env: Env, keys: Keys, disk: Bytes, ops: seq<Op>)
    requires GoodEnv(env) && Refines(env, keys, disk, []) && FreshDraws(ops)
    ensures var after := Run(env, keys, disk, ops).0;
            && LoadVault(env, keys.metadata, after).Ok?
            && var l, m := LoadVault(env, keys.metadata, disk).value, LoadVault(env, keys.metadata, after).value;
               WellFormed(l) && WellFormed(m) && SameRoot(l, m)
  {
    hide LoadVault, WellFormed, Step, Lawful, FrameExtents.SortsByStart, AllHold, SlotsOf, WrkFrame;
    if ops != [] {
      var n := |ops| - 1;
      RunKeepsRoot(env, keys, disk, ops[..n]);
      RunRefinesHistory(env, keys, disk, ops);
      StepKeepsRoot(env, keys, Run(env, keys, disk, ops[..n]).0, ops[n]);
    }
  }

  /** Create a vault, run any operations on it: the password still unlocks exactly the keys
      of its creation, unless the file has outgrown 64 MiB, when it no longer unlocks. */
  lemma VaultStaysUnlockable(env: Env, t: KeyTree, password: Bytes, d: CreateDraws, ops: seq<Op>)
    requires GoodEnv(env) && CreateVault(env, t, password, d).Ok? && FreshDraws(ops)
    ensures var (file, keys) := CreateVault(env, t, password, d).value;
            var after := Run(env, StoreKeys(keys), file, ops).0;
            Unlock(env, t, password, after) == if |after| <= MAX_VAULT_FILE_LEN then Ok(keys) else Err(Format)
  {
    hide LoadVault, WellFormed, Run, Lawful, FrameExtents.SortsByStart, AllHold, UnwrapRoot, CreateVault, Unlock;
    var (file, keys) := CreateVault(env, t, password, d).value;
    CreatedVaultOpens(env, t, password, d);
    RunKeepsRoot(env, StoreKeys(keys), file, ops);
    NonEmptyPassword(env, t, password, file);
    var after := Run(env, StoreKeys(keys), file, ops).0;
    UnlockOfLoaded(env, t, password, after, keys);
  }
}
