/** The encryptions that a whole run of the item store makes, and what they mean for a later
    reader of arbitrary bytes. */
module RunProvenance {
  import opened Wire
  import opened Errors
  import opened Crypto
  import opened SealedTable
  import opened RecordFrame
  import opened ItemPayload
  import opened VaultIndex
  import opened ItemStore
  import opened VaultRuns
  import opened Provenance

  // ---- the encryptions of one operation --------------------------------------------------------

  /** The call of `build_item_frame` that an operation makes, if it gets that far. */
  function BuildOf(env: Env, keys: Keys, disk: Bytes, op: Op): Option<Build> {
    var l := LoadVault(env, keys.metadata, disk);
    if l.Err? || op.OpDelete? || !Encodable(op.item) then None
    else
      var id := if op.OpAdd? then op.d.recordId else op.id;
      if op.OpUpdate? && FindLive(l.value.entries, id).None? then None
      else Some(Build(op.item, l.value.header, id, op.d.revisionId, op.d.rek, op.d.rekNonce, op.d.payloadNonce))
  }

  function WrapSeal(keys: Keys, b: Build): Seal { Seal(keys.itemWrap, b.rekNonce, b.rek, AadOf(b)) }

  function PayloadSeal(b: Build): Seal
    requires Encodable(b.item)
  {
    Seal(b.rek, b.payloadNonce, PrintItem(b.item), AadOf(b))
  }

  /** The two encryptions are the ones in the frame. */
  lemma BuildSealsItsFrame(a: Aead, keys: Keys, b: Build, d: Draws)
    requires d.rek == b.rek && d.rekNonce == b.rekNonce && d.payloadNonce == b.payloadNonce
    requires BuildItemFrame(a, b.item, keys.itemWrap, b.header, b.recordId, b.revisionId, d).Ok?
    ensures Encodable(b.item)
    ensures var w, p := WrapSeal(keys, b), PayloadSeal(b);
            var body := SerializeEnvelope(ItemEnvelope(b.rekNonce, a.enc(w.key, w.nonce, w.plaintext, w.aad),
                                                       b.payloadNonce, a.enc(p.key, p.nonce, p.plaintext, p.aad)));
            && body.Ok?
            && BuildItemFrame(a, b.item, keys.itemWrap, b.header, b.recordId, b.revisionId, d)
               == BuildRecordFrame(b.recordId, b.revisionId, body.value, AadOf(b), d.frameNonce)
  {
    hide SerializeEnvelope, SerializeFrame, PrintItem, BuildAad;
  }

  /** Everything an operation may encrypt: what it builds, and tables under the metadata key. */
  ghost predicate MaySeal(env: Env, keys: Keys, disk: Bytes, op: Op, s: Seal) {
    || s.key == keys.metadata
    || (BuildOf(env, keys, disk, op).Some?
        && var b := BuildOf(env, keys, disk, op).value;
           Encodable(b.item) && (s == WrapSeal(keys, b) || s == PayloadSeal(b)))
  }

  // ---- the encryptions of a run -----------------------------------------------------------------

  /** The bytes on disk when operation `k` of the run begins. */
  function DiskAt(env: Env, keys: Keys, disk: Bytes, ops: seq<Op>, k: nat): Bytes
    requires k <= |ops|
  {
    Run(env, keys, disk, ops[..k]).0
  }

  ghost predicate RunMaySeal(env: Env, keys: Keys, disk: Bytes, ops: seq<Op>, s: Seal) {
    exists k :: 0 <= k < |ops| && MaySealAt(env, keys, disk, ops, k, s)
  }

  ghost predicate MaySealAt(env: Env, keys: Keys, disk: Bytes, ops: seq<Op>, k: nat, s: Seal)
    requires k < |ops|
  {
    MaySeal(env, keys, DiskAt(env, keys, disk, ops, k), ops[k], s)
  }

  predicate IsBuildOf(env: Env, keys: Keys, disk: Bytes, ops: seq<Op>, k: nat, b: Build)
    requires k < |ops|
  {
    BuildOf(env, keys, DiskAt(env, keys, disk, ops, k), ops[k]) == Some(b)
  }

  ghost function RunBuilds(env: Env, keys: Keys, disk: Bytes, ops: seq<Op>): iset<Build> {
    iset b: Build | IsBuildOfRun(env, keys, disk, ops, b)
  }

  predicate IsBuildOfRun(env: Env, keys: Keys, disk: Bytes, ops: seq<Op>, b: Build) {
    exists k :: 0 <= k < |ops| && IsBuildOf(env, keys, disk, ops, k, b)
  }

  predicate IsRek(ops: seq<Op>, key: Bytes) {
    exists op :: op in ops && !op.OpDelete? && op.d.rek == key
  }

  /** The wrapping key, the metadata key and the record keys drawn in the run do not coincide. */
  predicate KeysApart(keys: Keys, ops: seq<Op>) {
    keys.itemWrap != keys.metadata && !IsRek(ops, keys.itemWrap) && !IsRek(ops, keys.metadata)
  }

  /** The log of a vault: what its run encrypted, and anything at all under other keys. */
  ghost predicate VaultLog(env: Env, keys: Keys, disk: Bytes, ops: seq<Op>, log: iset<Seal>) {
    forall s :: s in log ==>
      RunMaySeal(env, keys, disk, ops, s) || (s.key != keys.itemWrap && !IsRek(ops, s.key))
  }

  lemma BuildComesFromOp(env: Env, keys: Keys, disk: Bytes, op: Op, b: Build)
    requires BuildOf(env, keys, disk, op) == Some(b)
    ensures !op.OpDelete? && Encodable(b.item) && b.item == op.item && b.rek == op.d.rek
    ensures b.recordId == (if op.OpAdd? then op.d.recordId else op.id)
  {
    hide LoadVault, FindLive, Encodable;
  }

  /** The log of a run is honest: nothing is under the wrapping key but record keys of its builds, and
      nothing under a record key but their payloads. */
  lemma RunLogIsHonest(env: Env, keys: Keys, disk: Bytes, ops: seq<Op>, log: iset<Seal>)
    requires KeysApart(keys, ops) && VaultLog(env, keys, disk, ops, log)
    ensures HonestLog(log, keys.itemWrap, RunBuilds(env, keys, disk, ops))
  {
    hide BuildOf, DiskAt, Encodable, PrintItem, AadOf;
    var builds := RunBuilds(env, keys, disk, ops);
    forall s | s in log
      ensures s.key == keys.itemWrap ==> exists b :: b in builds && IsWrapOf(s, keys.itemWrap, b)
      ensures (exists b :: b in builds && b.rek == s.key) ==> exists b :: b in builds && IsPayloadOf(s, b)
    {
      SealIsHonest(env, keys, disk, ops, s);
    }
  }

  lemma SealIsHonest(env: Env, keys: Keys, disk: Bytes, ops: seq<Op>, s: Seal)
    requires KeysApart(keys, ops)
    requires RunMaySeal(env, keys, disk, ops, s) || (s.key != keys.itemWrap && !IsRek(ops, s.key))
    ensures var builds := RunBuilds(env, keys, disk, ops);
            && (s.key == keys.itemWrap ==> exists b :: b in builds && IsWrapOf(s, keys.itemWrap, b))
            && ((exists b :: b in builds && b.rek == s.key) ==> exists b :: b in builds && IsPayloadOf(s, b))
  {
    hide BuildOf, DiskAt, Encodable, PrintItem, AadOf;
    var builds := RunBuilds(env, keys, disk, ops);
    if exists b :: b in builds && b.rek == s.key {
      var b :| b in builds && b.rek == s.key;
      RekOfBuild(env, keys, disk, ops, b);
    }
    if RunMaySeal(env, keys, disk, ops, s) && s.key != keys.metadata {
      var k :| 0 <= k < |ops| && MaySealAt(env, keys, disk, ops, k, s);
      var b := BuildOf(env, keys, DiskAt(env, keys, disk, ops, k), ops[k]).value;
      assert IsBuildOf(env, keys, disk, ops, k, b) && b in builds;
      RekOfBuild(env, keys, disk, ops, b);
      assert IsWrapOf(s, keys.itemWrap, b) || IsPayloadOf(s, b);
    }
  }

  lemma RekOfBuild(env: Env, keys: Keys, disk: Bytes, ops: seq<Op>, b: Build)
    requires b in RunBuilds(env, keys, disk, ops)
    ensures IsRek(ops, b.rek)
  {
    hide BuildOf, DiskAt;
    var k :| 0 <= k < |ops| && IsBuildOf(env, keys, disk, ops, k, b);
    BuildComesFromOp(env, keys, DiskAt(env, keys, disk, ops, k), ops[k], b);
  }

  /** An add of the item under the id, or an update of the id with the item. */
  predicate Writes(op: Op, id: Bytes16, item: PlainItem) {
    (op.OpAdd? && op.d.recordId == id && op.item == item) || (op.OpUpdate? && op.id == id && op.item == item)
  }

  /** After any run, whatever bytes are put in the place of the vault file: with an ideal AEAD
      `with_item` shows only an item that an operation of the run wrote under that very id. */
  lemma RunShowsOnlyItsWrites(env: Env, keys: Keys, disk: Bytes, ops: seq<Op>, log: iset<Seal>, bytes: Bytes,
                              id: Bytes16)
    requires Ideal(env.aead, log) && VaultLog(env, keys, disk, ops, log) && KeysApart(keys, ops)
    requires WithItem(env, keys, bytes, id).Ok?
    ensures exists k :: 0 <= k < |ops| && Writes(ops[k], id, WithItem(env, keys, bytes, id).value)
  {
    hide Ideal, VaultLog, KeysApart, HonestLog, WithItem, BuildOf, DiskAt;
    RunLogIsHonest(env, keys, disk, ops, log);
    ShownItemsWereBuilt(env, log, RunBuilds(env, keys, disk, ops), keys, bytes, id);
    var item := WithItem(env, keys, bytes, id).value;
    var b :| b in RunBuilds(env, keys, disk, ops) && b.item == item && b.recordId == id;
    var k :| 0 <= k < |ops| && IsBuildOf(env, keys, disk, ops, k, b);
    BuildComesFromOp(env, keys, DiskAt(env, keys, disk, ops, k), ops[k], b);
    assert Writes(ops[k], id, item);
  }
}
