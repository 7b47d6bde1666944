/** Exporting the live items of one vault and importing them into another, with rollback
    (export.rs). */
module Migration {
  import opened Wire
  import opened Errors
  import opened Crypto
  import opened KdfProfile
  import opened ItemPayload
  import opened ExportBundle
  import opened VaultIndex
  import opened ItemStore
  import opened VaultRuns
  import opened Capacity

  /** `derive_export_bundle_key(passphrase, source_vault_id, params)`. */
  type Derive = (Bytes, Bytes16, Argon2Params) -> Option<Bytes32>

  // ---- export -----------------------------------------------------------------------------------

  /** The bytes the closure of each `with_item` call appends. */
  function PrintListed(env: Env, keys: Keys, disk: Bytes, listed: seq<Summary>): Result<Bytes, CoreError> {
    if listed == [] then Ok([])
    else
      var item :- WithItem(env, keys, disk, listed[0].id);
      var head :- SerializePayload(item);
      var tail :- PrintListed(env, keys, disk, listed[1..]);
      Ok(head + tail)
  }

  /** `serialize_live_item_set`. */
  function LiveItemSet(env: Env, keys: Keys, disk: Bytes): Result<Bytes, CoreError> {
    var listed :- ListVault(env, keys, disk);
    var count :- TryU32(|listed|, Format);
    var body :- PrintListed(env, keys, disk, listed);
    Ok(U32(count) + body)
  }

  /** `export`. */
  function ExportVault(env: Env, keys: Keys, derive: Derive, vaultId: Bytes16, disk: Bytes, passphrase: Bytes,
                       nonce: Bytes24):
    Result<Bytes, CoreError>
  {
    if passphrase == [] then Err(InvalidState)
    else
      var kdf :- SerializeKdf(CANONICAL);
      var plaintext :- LiveItemSet(env, keys, disk);
      match derive(passphrase, vaultId, CANONICAL.argon2)
      case None => Err(CoreError.Crypto)
      case Some(key) =>
        var ciphertext := env.aead.enc(key, nonce, plaintext, ExportAad(vaultId, MSEXP_VERSION_V1));
        SerializeBundle(Bundle(MSEXP_VERSION_V1, vaultId, kdf, nonce, ciphertext))
  }

  /** `UntrustedExportBundle::authenticate`. */
  function Authenticate(a: Aead, derive: Derive, bytes: Bytes, passphrase: Bytes): Result<seq<PlainItem>, CoreError> {
    if passphrase == [] then Err(InvalidState)
    else
      var b :- ParseBundle(bytes);
      var params :- ParseKdf(b.kdf);
      match derive(passphrase, b.vaultId, params.argon2)
      case None => Err(CoreError.Crypto)
      case Some(key) =>
        match a.dec(key, b.nonce, b.ciphertext, ExportAad(b.vaultId, b.version))
        case None => Err(Auth)
        case Some(plaintext) => DeserializeItemSet(plaintext)
  }

  /** The live items in table order. */
  function LiveItems(slots: seq<Slot>): (items: seq<PlainItem>)
    ensures |items| == |LiveSummaries(slots)|
    ensures AllReadable(slots) ==> AllEncodable(items) && AllWithin(items, STORE_LIMITS)
  {
    if slots == [] then []
    else
      var rest := slots[1..];
      assert slots == [slots[0]] + rest;
      (if slots[0].item.Some? then [slots[0].item.value] else []) + LiveItems(rest)
  }

  lemma {:induction false} PrintListedSlots(env: Env, keys: Keys, disk: Bytes, slots: seq<Slot>, k: nat)
    requires Refines(env, keys, disk, slots) && AllReadable(slots) && k <= |slots|
    ensures AllReadable(slots[k..])
    ensures PrintListed(env, keys, disk, LiveSummaries(slots[k..])) == Ok(PrintItems(LiveItems(slots[k..])))
    decreases |slots| - k
  {
    hide Refines, WithItem, PrintItem, Within, Encodable;
    if k < |slots| {
      var s, rest := slots[k], slots[k + 1..];
      assert slots[k..] == [s] + rest && slots[k..][1..] == rest && s in slots;
      PrintListedSlots(env, keys, disk, slots, k + 1);
      if s.item.Some? {
        var item := s.item.value;
        RefinedSlotsAreDistinct(env, keys, disk, slots);
        FindSlotByIndex(slots, k);
        WithItemShowsSlot(env, keys, disk, slots, s.id);
        WithinIsEncodable(item);
        var listed := [SlotSummary(s.id, item)] + LiveSummaries(rest);
        assert LiveSummaries(slots[k..]) == listed && listed[1..] == LiveSummaries(rest);
        var items := [item] + LiveItems(rest);
        assert LiveItems(slots[k..]) == items && items[1..] == LiveItems(rest);
      } else {
        assert LiveSummaries(slots[k..]) == LiveSummaries(rest);
        assert LiveItems(slots[k..]) == LiveItems(rest);
      }
    }
  }

  lemma WithinIsEncodable(item: PlainItem)
    requires Within(item, STORE_LIMITS)
    ensures Encodable(item)
  {}

  /** What a vault exports is the set of its live items, in list order. */
  lemma LiveItemSetIsPrinted(env: Env, keys: Keys, disk: Bytes, slots: seq<Slot>)
    requires Refines(env, keys, disk, slots)
    ensures LiveItemSet(env, keys, disk).Ok? <==> AllReadable(slots) && |LiveItems(slots)| < TWO_32
    ensures LiveItemSet(env, keys, disk).Ok? ==> LiveItemSet(env, keys, disk).value == PrintItemSet(LiveItems(slots))
  {
    hide Refines, ListVault, PrintListed, PrintItems, LiveItems, LiveSummaries, AllReadable;
    ListShowsLiveItems(env, keys, disk, slots);
    assert slots[0..] == slots;
    if AllReadable(slots) { PrintListedSlots(env, keys, disk, slots, 0); }
  }

  /** When an export succeeds. */
  lemma ExportSucceedsExactly(env: Env, keys: Keys, derive: Derive, vaultId: Bytes16, disk: Bytes, slots: seq<Slot>,
                              passphrase: Bytes, nonce: Bytes24)
    requires Lawful(env.aead) && Refines(env, keys, disk, slots)
    ensures ExportVault(env, keys, derive, vaultId, disk, passphrase, nonce).Ok? <==>
              && passphrase != [] && derive(passphrase, vaultId, CANONICAL.argon2).Some?
              && AllReadable(slots) && |LiveItems(slots)| < TWO_32
              && |PrintItemSet(LiveItems(slots))| + TAG_LEN < TWO_32
  {
    hide Refines, LiveItemSet, LiveItems, AllReadable, PrintItems, Lawful, LiveSummaries, PrintParams;
    LiveItemSetIsPrinted(env, keys, disk, slots);
    var key := derive(passphrase, vaultId, CANONICAL.argon2);
    if key.Some? && LiveItemSet(env, keys, disk).Ok? {
      LawfulAt(env.aead, key.value, nonce, LiveItemSet(env, keys, disk).value, ExportAad(vaultId, MSEXP_VERSION_V1));
    }
  }

  /** A bundle opens under its passphrase to exactly the exported live items, unless there are
      more than the reader accepts. */
  lemma ExportedBundleAuthenticates(env: Env, keys: Keys, derive: Derive, vaultId: Bytes16, disk: Bytes,
                                    slots: seq<Slot>, passphrase: Bytes, nonce: Bytes24)
    requires Lawful(env.aead) && Refines(env, keys, disk, slots)
    requires ExportVault(env, keys, derive, vaultId, disk, passphrase, nonce).Ok?
    ensures Authenticate(env.aead, derive,
                         ExportVault(env, keys, derive, vaultId, disk, passphrase, nonce).value, passphrase)
         == if |LiveItems(slots)| <= MAX_EXPORT_ITEM_COUNT then Ok(LiveItems(slots)) else Err(Format)
  {
    hide Refines, LiveItemSet, LiveItems, AllReadable, PrintItems, Lawful, LiveSummaries, PrintItemSet, SerializeKdf,
         ParseKdf, SerializeBundle, ParseBundle, DeserializeItemSet, ExportAad;
    LiveItemSetIsPrinted(env, keys, disk, slots);
    var items := LiveItems(slots);
    var key := derive(passphrase, vaultId, CANONICAL.argon2).value;
    var aad := ExportAad(vaultId, MSEXP_VERSION_V1);
    LawfulAt(env.aead, key, nonce, PrintItemSet(items), aad);
    KdfRoundTrip(CANONICAL);
    BundleRoundTrip(Bundle(MSEXP_VERSION_V1, vaultId, SerializeKdf(CANONICAL).value, nonce,
                           env.aead.enc(key, nonce, PrintItemSet(items), aad)));
    ItemSetRoundTrip(items);
    assert forall i :: i in items ==> Within(i, STORE_LIMITS);
  }

  /** With an ideal AEAD, whatever bytes are offered, an accepted bundle holds an item set that
      was sealed for the vault id the bundle names, with the nonce it carries and under the
      key that its own parameters give. */
  lemma AcceptedBundleWasSealed(a: Aead, log: iset<Seal>, derive: Derive, bytes: Bytes, passphrase: Bytes)
    requires Ideal(a, log) && Authenticate(a, derive, bytes, passphrase).Ok?
    ensures var items := Authenticate(a, derive, bytes, passphrase).value;
            && AllEncodable(items) && |items| <= MAX_EXPORT_ITEM_COUNT
            && ParseBundle(bytes).Ok? && ParseKdf(ParseBundle(bytes).value.kdf).Ok?
            && var b := ParseBundle(bytes).value;
               var key := derive(passphrase, b.vaultId, ParseKdf(b.kdf).value.argon2);
               key.Some? && Seal(key.value, b.nonce, PrintItemSet(items), ExportAad(b.vaultId, MSEXP_VERSION_V1)) in log
  {
    hide DeserializeItemSet, ParseBundle, ParseKdf, ExportAad, PrintItemSet, SerializeBundle;
    var b := ParseBundle(bytes).value;
    AcceptedBundleIsCanonical(bytes);
    var key := derive(passphrase, b.vaultId, ParseKdf(b.kdf).value.argon2).value;
    var plaintext := a.dec(key, b.nonce, b.ciphertext, ExportAad(b.vaultId, b.version)).value;
    AcceptedItemSetIsCanonical(plaintext);
    assert Seal(key, b.nonce, plaintext, ExportAad(b.vaultId, MSEXP_VERSION_V1)) in log;
  }

  // ---- import ------------------------------------------------------------------------------------------

  /** How far the add loop got: the bytes on disk, the ids returned, and whether every add
      succeeded. */
  datatype Adds = Adds(disk: Bytes, ids: seq<Bytes16>, ok: bool)

  function AddItems(env: Env, keys: Keys, disk: Bytes, items: seq<PlainItem>, draws: nat -> Draws): (r: Adds)
    ensures |r.ids| <= |items|
    ensures r.ok <==> |r.ids| == |items|
    decreases |items|
  {
    if items == [] then Adds(disk, [], true)
    else
      var n := |items| - 1;
      var before := AddItems(env, keys, disk, items[..n], draws);
      if !before.ok then before
      else
        var (after, r) := AddVault(env, keys, before.disk, items[n], draws(n));
        if r.Ok? then Adds(after, before.ids + [r.value], true) else Adds(after, before.ids, false)
  }

  /** The rollback: `imported_ids.iter().all(..)` stops at the first delete that fails. */
  function DeleteItems(env: Env, keys: Keys, disk: Bytes, ids: seq<Bytes16>, draws: nat -> Draws): (Bytes, bool)
    decreases |ids|
  {
    if ids == [] then (disk, true)
    else
      var n := |ids| - 1;
      var (before, ok) := DeleteItems(env, keys, disk, ids[..n], draws);
      if !ok then (before, false)
      else
        var (after, r) := DeleteVault(env, keys, before, ids[n], draws(n));
        (after, r.Ok?)
  }

  /** `import` after authentication. */
  function ImportItems(env: Env, keys: Keys, disk: Bytes, items: seq<PlainItem>, adds: nat -> Draws,
                       dels: nat -> Draws):
    (Bytes, Result<seq<Bytes16>, CoreError>)
  {
    var added := AddItems(env, keys, disk, items, adds);
    if added.ok then (added.disk, Ok(added.ids))
    else
      var (after, rolledBack) := DeleteItems(env, keys, added.disk, added.ids, dels);
      (after, Err(if rolledBack then InvalidState else PartialImport))
  }

  /** `import`. */
  function ImportBundle(env: Env, keys: Keys, derive: Derive, disk: Bytes, bytes: Bytes, passphrase: Bytes,
                        adds: nat -> Draws, dels: nat -> Draws): (Bytes, Result<seq<Bytes16>, CoreError>)
  {
    match Authenticate(env.aead, derive, bytes, passphrase)
    case Err(e) => (disk, Err(e))
    case Ok(items) => ImportItems(env, keys, disk, items, adds, dels)
  }

  // ---- the add loop on the abstract vault ----------------------------------------------------------------

  /** The ids drawn for the first `n` adds are new to the vault and to each other. */
  predicate FreshAdds(slots: seq<Slot>, adds: nat -> Draws, n: nat) {
    && (forall i: nat :: i < n ==> !HasId(slots, adds(i).recordId))
    && (forall i: nat, j: nat :: i < j < n ==> adds(i).recordId != adds(j).recordId)
  }

  function NewSlots(items: seq<PlainItem>, adds: nat -> Draws): seq<Slot> {
    seq(|items|, i requires 0 <= i < |items| => Slot(adds(i).recordId, Some(items[i])))
  }

  /** The slot of a failed add that had already replaced the file when it reported the error. */
  function LeakedBy(env: Env, keys: Keys, disk: Bytes, item: PlainItem, d: Draws): seq<Slot> {
    if AddFile(env, keys, disk, item, d).Ok? && d.io == RenamedNotSynced then [Slot(d.recordId, Some(item))] else []
  }

  function Leaked(env: Env, keys: Keys, disk: Bytes, items: seq<PlainItem>, adds: nat -> Draws): (s: seq<Slot>)
    ensures |s| <= 1
  {
    var k := |AddItems(env, keys, disk, items, adds).ids|;
    if k == |items| then []
    else LeakedBy(env, keys, AddItems(env, keys, disk, items[..k], adds).disk, items[k], adds(k))
  }

  lemma AddVaultRefines(env: Env, keys: Keys, disk: Bytes, slots: seq<Slot>, item: PlainItem, d: Draws)
    requires GoodEnv(env) && Refines(env, keys, disk, slots) && !HasId(slots, d.recordId)
    ensures var (after, r) := AddVault(env, keys, disk, item, d);
            && (r.Ok? ==> r.value == d.recordId && Refines(env, keys, after, Appended(slots, d.recordId, item)))
            && (r.Err? ==> Refines(env, keys, after, slots + LeakedBy(env, keys, disk, item, d)))
  {
    hide GoodEnv, Refines, AddFile;
    assert slots + [] == slots;
    if AddFile(env, keys, disk, item, d).Ok? { AddFileRefines(env, keys, disk, slots, item, d); }
  }

  lemma {:induction false} AddItemsRefine(env: Env, keys: Keys, disk: Bytes, slots: seq<Slot>, items: seq<PlainItem>,
                                          adds: nat -> Draws)
    requires GoodEnv(env) && Refines(env, keys, disk, slots) && FreshAdds(slots, adds, |items|)
    ensures var r := AddItems(env, keys, disk, items, adds);
            && (forall i :: 0 <= i < |r.ids| ==> r.ids[i] == adds(i).recordId)
            && Refines(env, keys, r.disk,
                       slots + NewSlots(items[..|r.ids|], adds) + Leaked(env, keys, disk, items, adds))
    decreases |items|
  {
    hide GoodEnv, Refines, AddVault, LeakedBy, NewSlots;
    if items == [] {
      NewSlotsLength([], adds);
      assert slots + [] + [] == slots;
    } else {
      var n := |items| - 1;
      var init := items[..n];
      AddItemsRefine(env, keys, disk, slots, init, adds);
      if AddItems(env, keys, disk, init, adds).ok {
        LastAddRefines(env, keys, disk, slots, items, adds);
      } else {
        var k := |AddItems(env, keys, disk, init, adds).ids|;
        assert init[..k] == items[..k] && init[k] == items[k];
      }
    }
  }

  lemma LastAddRefines(env: Env, keys: Keys, disk: Bytes, slots: seq<Slot>, items: seq<PlainItem>, adds: nat -> Draws)
    requires GoodEnv(env) && items != [] && FreshAdds(slots, adds, |items|)
    requires var n := |items| - 1;
             var before := AddItems(env, keys, disk, items[..n], adds);
             before.ok && Refines(env, keys, before.disk, slots + NewSlots(items[..n][..n], adds) + [])
    ensures var r := AddItems(env, keys, disk, items, adds);
            && (r.ok ==>
                  r.ids == AddItems(env, keys, disk, items[..|items| - 1], adds).ids + [adds(|items| - 1).recordId])
            && Refines(env, keys, r.disk,
                       slots + NewSlots(items[..|r.ids|], adds) + Leaked(env, keys, disk, items, adds))
  {
    hide GoodEnv, Refines, AddVault, LeakedBy, NewSlots;
    var n := |items| - 1;
    var init := items[..n];
    var before := AddItems(env, keys, disk, init, adds);
    var grown := slots + NewSlots(init, adds);
    assert init[..n] == init && grown + [] == grown && items[..n + 1] == items;
    NewIdIsFresh(slots, init, adds);
    AddVaultRefines(env, keys, before.disk, grown, items[n], adds(n));
    if AddVault(env, keys, before.disk, items[n], adds(n)).1.Ok? {
      NewSlotsSnoc(items, adds);
      assert Appended(grown, adds(n).recordId, items[n]) == slots + NewSlots(items, adds) + [];
    }
  }

  lemma NewSlotsSnoc(items: seq<PlainItem>, adds: nat -> Draws)
    requires items != []
    ensures var n := |items| - 1;
            NewSlots(items, adds) == NewSlots(items[..n], adds) + [Slot(adds(n).recordId, Some(items[n]))]
  {}

  lemma NewIdIsFresh(slots: seq<Slot>, items: seq<PlainItem>, adds: nat -> Draws)
    requires FreshAdds(slots, adds, |items| + 1)
    ensures !HasId(slots + NewSlots(items, adds), adds(|items|).recordId)
  {
    var grown := slots + NewSlots(items, adds);
    forall s | s in grown ensures s.id != adds(|items|).recordId {
      var i :| 0 <= i < |grown| && grown[i] == s;
      if i < |slots| { assert slots[i] in slots; }
    }
  }

  // ---- the rollback on the abstract vault ------------------------------------------------------------------

  /** The slots with those of the given ids turned into tombstones. */
  function Buried(slots: seq<Slot>, ids: seq<Bytes16>): seq<Slot> {
    seq(|slots|, i requires 0 <= i < |slots| => if slots[i].id in ids then Slot(slots[i].id, None) else slots[i])
  }

  lemma {:induction false} NoLiveSlot(slots: seq<Slot>, id: Bytes16)
    requires FindSlot(slots, id).None?
    ensures forall i :: 0 <= i < |slots| && slots[i].id == id ==> slots[i].item.None?
  {
    if slots != [] {
      NoLiveSlot(slots[1..], id);
      assert slots == [slots[0]] + slots[1..];
    }
  }

  lemma BuriedOne(slots: seq<Slot>, id: Bytes16)
    requires DistinctSlots(slots)
    ensures Buried(slots, [id]) ==
              match FindSlot(slots, id)
              case None => slots
              case Some(p) => slots[p := Slot(id, None)]
  {
    var p := FindSlot(slots, id);
    if p.None? { NoLiveSlot(slots, id); }
  }

  lemma DeleteVaultRefines(env: Env, keys: Keys, disk: Bytes, slots: seq<Slot>, id: Bytes16, d: Draws)
    requires GoodEnv(env) && Refines(env, keys, disk, slots)
    ensures var (after, r) := DeleteVault(env, keys, disk, id, d);
            && (Refines(env, keys, after, slots) || Refines(env, keys, after, Buried(slots, [id])))
            && (r.Ok? ==> Refines(env, keys, after, Buried(slots, [id])))
  {
    hide GoodEnv, Refines, DeleteFile, Buried;
    RefinedSlotsAreDistinct(env, keys, disk, slots);
    DeleteFileRefines(env, keys, disk, slots, id, d);
    BuriedOne(slots, id);
    if FindSlot(slots, id).Some? { DeleteOfLiveWrites(env, keys, disk, slots, id, d); }
  }

  lemma BuriedMore(slots: seq<Slot>, ids: seq<Bytes16>, id: Bytes16)
    ensures Buried(Buried(slots, ids), [id]) == Buried(slots, ids + [id])
  {}

  /** The rollback buries the ids it reaches; if it reports success, all of them. */
  lemma {:induction false} DeleteItemsRefine(env: Env, keys: Keys, disk: Bytes, slots: seq<Slot>, ids: seq<Bytes16>,
                                             dels: nat -> Draws) returns (m: nat)
    requires GoodEnv(env) && Refines(env, keys, disk, slots)
    ensures m <= |ids| && Refines(env, keys, DeleteItems(env, keys, disk, ids, dels).0, Buried(slots, ids[..m]))
    ensures DeleteItems(env, keys, disk, ids, dels).1 ==> m == |ids|
    decreases |ids|
  {
    hide GoodEnv, Refines, DeleteVault, Buried;
    if ids == [] {
      m := 0;
      BuriedNone(slots);
    } else {
      var n := |ids| - 1;
      m := DeleteItemsRefine(env, keys, disk, slots, ids[..n], dels);
      assert ids[..n][..m] == ids[..m];
      var (before, ok) := DeleteItems(env, keys, disk, ids[..n], dels);
      if ok {
        DeleteVaultRefines(env, keys, before, Buried(slots, ids[..n]), ids[n], dels(n));
        BuriedMore(slots, ids[..n], ids[n]);
        assert ids[..n] + [ids[n]] == ids && ids[..n + 1] == ids;
        if Refines(env, keys, DeleteItems(env, keys, disk, ids, dels).0, Buried(slots, ids)) { m := n + 1; }
      }
    }
  }

  lemma BuriedNone(slots: seq<Slot>)
    ensures Buried(slots, []) == slots
  {}

  function Tombstones(ids: seq<Bytes16>): seq<Slot> { seq(|ids|, i requires 0 <= i < |ids| => Slot(ids[i], None)) }

  /** Burying the first new ids touches nothing else. */
  lemma BuryNewIds(slots: seq<Slot>, items: seq<PlainItem>, adds: nat -> Draws, leaked: seq<Slot>, ids: seq<Bytes16>,
                   m: nat)
    requires m <= |ids| == |items| && forall i :: 0 <= i < |ids| ==> ids[i] == adds(i).recordId
    requires DistinctSlots(slots + NewSlots(items, adds) + leaked)
    ensures Buried(slots + NewSlots(items, adds) + leaked, ids[..m])
         == slots + Tombstones(ids[..m]) + NewSlots(items, adds)[m..] + leaked
  {
    var all := slots + NewSlots(items, adds) + leaked;
    var goal := slots + Tombstones(ids[..m]) + NewSlots(items, adds)[m..] + leaked;
    forall i | 0 <= i < |all| ensures Buried(all, ids[..m])[i] == goal[i] {
      if |slots| <= i < |slots| + m {
        assert all[i].id == ids[..m][i - |slots|];
      } else {
        assert all[i].id !in ids[..m] by {
          forall j | 0 <= j < m
            ensures ids[..m][j] != all[i].id
          {
            assert all[|slots| + j].id == ids[j];
            OtherSlot(all, |slots| + j, i);
          }
        }
      }
    }
  }

  lemma OtherSlot(slots: seq<Slot>, i: nat, j: nat)
    requires DistinctSlots(slots) && i < |slots| && j < |slots| && i != j
    ensures slots[i].id != slots[j].id
  {
    var a, b := if i < j then i else j, if i < j then j else i;
    assert slots[a].id != slots[b].id;
  }

  // ---- what an import leaves behind --------------------------------------------------------------------------

  /** An import appends all items under the fresh ids; or reports a rollback, and every item
      it had appended is a tombstone; or reports a partial import, and only the first few of
      them are. In the two failing cases the add that failed may itself have left a live slot
      behind, if its directory sync failed after the rename. */
  lemma ImportOutcome(env: Env, keys: Keys, disk: Bytes, slots: seq<Slot>, items: seq<PlainItem>,
                      adds: nat -> Draws, dels: nat -> Draws) returns (m: nat)
    requires GoodEnv(env) && Refines(env, keys, disk, slots) && FreshAdds(slots, adds, |items|)
    ensures var (after, r) := ImportItems(env, keys, disk, items, adds, dels);
            var ids := AddItems(env, keys, disk, items, adds).ids;
            var leaked := Leaked(env, keys, disk, items, adds);
            && m <= |ids| && (forall i :: 0 <= i < |ids| ==> ids[i] == adds(i).recordId)
            && (r.Ok? ==>
                  r.value == ids && |ids| == |items| && Refines(env, keys, after, slots + NewSlots(items, adds)))
            && (r.Err? ==>
                  && (r.error == InvalidState || r.error == PartialImport)
                  && (r.error == InvalidState ==> m == |ids|)
                  && Refines(env, keys, after,
                       slots + Tombstones(ids[..m]) + NewSlots(items[..|ids|], adds)[m..] + leaked))
  {
    hide GoodEnv, Refines, DeleteItems, AddItems, Leaked, NewSlots, Tombstones, Buried;
    AddItemsRefine(env, keys, disk, slots, items, adds);
    var added := AddItems(env, keys, disk, items, adds);
    var ids := added.ids;
    var leaked := Leaked(env, keys, disk, items, adds);
    m := 0;
    if added.ok {
      NothingLeaks(env, keys, disk, items, adds);
      assert items[..|items|] == items;
      assert slots + NewSlots(items, adds) + [] == slots + NewSlots(items, adds);
    } else {
      var grown := slots + NewSlots(items[..|ids|], adds) + leaked;
      m := DeleteItemsRefine(env, keys, added.disk, grown, ids, dels);
      RefinedSlotsAreDistinct(env, keys, added.disk, grown);
      BuryNewIds(slots, items[..|ids|], adds, leaked, ids, m);
    }
  }

  lemma NothingLeaks(env: Env, keys: Keys, disk: Bytes, items: seq<PlainItem>, adds: nat -> Draws)
    requires AddItems(env, keys, disk, items, adds).ok
    ensures Leaked(env, keys, disk, items, adds) == []
  {}

  /** `PartialImport` is reported exactly when some add failed and some delete of the rollback
      failed. */
  lemma ReportsPartialExactly(env: Env, keys: Keys, disk: Bytes, items: seq<PlainItem>, adds: nat -> Draws,
                              dels: nat -> Draws)
    ensures var added := AddItems(env, keys, disk, items, adds);
            ImportItems(env, keys, disk, items, adds, dels).1 == Err(PartialImport) <==>
              !added.ok
              && exists j :: 0 <= j < |added.ids| && RollbackFailsAt(env, keys, added.disk, added.ids, dels, j)
  {
    hide DeleteItems, AddItems;
    var added := AddItems(env, keys, disk, items, adds);
    RollbackVerdict(env, keys, added.disk, added.ids, dels);
  }

  predicate RollbackFailsAt(env: Env, keys: Keys, disk: Bytes, ids: seq<Bytes16>, dels: nat -> Draws, j: nat)
    requires j < |ids|
  {
    var (before, reached) := DeleteItems(env, keys, disk, ids[..j], dels);
    reached && DeleteVault(env, keys, before, ids[j], dels(j)).1.Err?
  }

  lemma {:induction false} RollbackVerdict(env: Env, keys: Keys, disk: Bytes, ids: seq<Bytes16>, dels: nat -> Draws)
    ensures !DeleteItems(env, keys, disk, ids, dels).1 <==>
              exists j :: 0 <= j < |ids| && RollbackFailsAt(env, keys, disk, ids, dels, j)
    decreases |ids|
  {
    hide DeleteVault;
    if ids != [] {
      var n := |ids| - 1;
      RollbackVerdict(env, keys, disk, ids[..n], dels);
      forall j | 0 <= j < n
        ensures RollbackFailsAt(env, keys, disk, ids, dels, j) <==> RollbackFailsAt(env, keys, disk, ids[..n], dels, j)
      {
        assert ids[..n][..j] == ids[..j];
      }
      if !DeleteItems(env, keys, disk, ids, dels).1 {
        if DeleteItems(env, keys, disk, ids[..n], dels).1 { assert RollbackFailsAt(env, keys, disk, ids, dels, n); }
        else {
          var j :| 0 <= j < n && RollbackFailsAt(env, keys, disk, ids[..n], dels, j);
          assert RollbackFailsAt(env, keys, disk, ids, dels, j);
        }
      } else {
        forall j | 0 <= j < |ids| ensures !RollbackFailsAt(env, keys, disk, ids, dels, j) {
          if j < n { assert !RollbackFailsAt(env, keys, disk, ids[..n], dels, j); }
        }
      }
    }
  }

  /** An import that ends in an error wrote nothing exactly when no add had succeeded and the one
      that failed had not reached its rename. */
  lemma FailedImportWritesNothingExactly(env: Env, keys: Keys, disk: Bytes, slots: seq<Slot>, items: seq<PlainItem>,
                                         adds: nat -> Draws, dels: nat -> Draws)
    requires GoodEnv(env) && Refines(env, keys, disk, slots) && FreshAdds(slots, adds, |items|)
    requires ImportItems(env, keys, disk, items, adds, dels).1.Err?
    ensures ImportItems(env, keys, disk, items, adds, dels).0 == disk <==>
              AddItems(env, keys, disk, items, adds).ids == [] && Leaked(env, keys, disk, items, adds) == []
  {
    hide GoodEnv, Refines, AddItems, DeleteItems, Leaked, NewSlots, Tombstones, FreshAdds;
    var after := ImportItems(env, keys, disk, items, adds, dels).0;
    var ids := AddItems(env, keys, disk, items, adds).ids;
    var leaked := Leaked(env, keys, disk, items, adds);
    var m := ImportOutcome(env, keys, disk, slots, items, adds, dels);
    NewSlotsLength(items[..|ids|], adds);
    TombstonesLength(ids[..m]);
    if after == disk {
      SlotsAreCounted(env, keys, disk, slots,
                      slots + Tombstones(ids[..m]) + NewSlots(items[..|ids|], adds)[m..] + leaked);
    }
    if ids == [] && leaked == [] {
      NothingAddedLeavesDisk(env, keys, disk, items, adds);
      NoDeletes(env, keys, disk, dels);
    }
  }

  /** And one failure of I/O is enough to write: a second add that fails, however well its rollback goes. */
  lemma FailedImportWrites(env: Env, keys: Keys, disk: Bytes, slots: seq<Slot>, first: PlainItem, second: PlainItem,
                           adds: nat -> Draws, dels: nat -> Draws)
    requires GoodEnv(env) && Refines(env, keys, disk, slots) && FreshAdds(slots, adds, 2)
    requires |slots| < CAPACITY && Storable(first) && adds(0).io == Committed && adds(1).io != Committed
    ensures var (after, r) := ImportItems(env, keys, disk, [first, second], adds, dels);
            r.Err? && after != disk
  {
    hide GoodEnv, Refines, DeleteItems, AddFile, Storable, Leaked, HasId;
    var items := [first, second];
    assert items[..1] == [first] && [first][..0] == [];
    AddSucceedsExactly(env, keys, disk, slots, first, adds(0));
    assert AddItems(env, keys, disk, [], adds) == Adds(disk, [], true);
    assert AddItems(env, keys, disk, [first], adds).ids == [adds(0).recordId];
    assert AddItems(env, keys, disk, items, adds).ids == [adds(0).recordId];
    FailedImportWritesNothingExactly(env, keys, disk, slots, items, adds, dels);
  }

  lemma TombstonesLength(ids: seq<Bytes16>)
    ensures |Tombstones(ids)| == |ids|
  {}

  /** A file has one number of records. */
  lemma SlotsAreCounted(env: Env, keys: Keys, disk: Bytes, xs: seq<Slot>, ys: seq<Slot>)
    requires Refines(env, keys, disk, xs) && Refines(env, keys, disk, ys)
    ensures |xs| == |ys|
  {
    hide LoadVault, WellFormed, Holds;
  }

  lemma {:induction false} NothingAddedLeavesDisk(env: Env, keys: Keys, disk: Bytes, items: seq<PlainItem>,
                                                  adds: nat -> Draws)
    requires AddItems(env, keys, disk, items, adds).ids == [] && Leaked(env, keys, disk, items, adds) == []
    ensures AddItems(env, keys, disk, items, adds).disk == disk
    decreases |items|
  {
    hide AddFile;
    if items != [] {
      var n := |items| - 1;
      var init := items[..n];
      if AddItems(env, keys, disk, init, adds).ok {
        assert n == 0 && init == [];
      } else {
        assert init[..0] == items[..0] && init[0] == items[0];
        NothingAddedLeavesDisk(env, keys, disk, init, adds);
      }
    }
  }

  lemma NoDeletes(env: Env, keys: Keys, disk: Bytes, dels: nat -> Draws)
    ensures DeleteItems(env, keys, disk, [], dels) == (disk, true)
  {}

  // ---- what a reader sees afterwards ----------------------------------------------------------------------------

  lemma {:induction false} SummariesConcat(xs: seq<Slot>, ys: seq<Slot>)
    ensures LiveSummaries(xs + ys) == LiveSummaries(xs) + LiveSummaries(ys)
    decreases |xs|
  {
    hide LiveSummaries, SlotSummary;
    if xs == [] {
      assert xs + ys == ys;
      NoSummaries();
    } else {
      var rest := xs[1..];
      assert (xs + ys)[1..] == rest + ys;
      SummariesConcat(rest, ys);
      FirstSummary(xs);
      FirstSummary(xs + ys);
      var h := HeadSummary(xs[0]);
      assert h + (LiveSummaries(rest) + LiveSummaries(ys)) == (h + LiveSummaries(rest)) + LiveSummaries(ys);
    }
  }

  function HeadSummary(s: Slot): seq<Summary> { if s.item.Some? then [SlotSummary(s.id, s.item.value)] else [] }

  lemma FirstSummary(xs: seq<Slot>)
    requires xs != []
    ensures LiveSummaries(xs) == HeadSummary(xs[0]) + LiveSummaries(xs[1..])
  {}

  lemma NoSummaries()
    ensures LiveSummaries([]) == []
  {}

  lemma {:induction false} TombstonesAreSilent(ids: seq<Bytes16>)
    ensures LiveSummaries(Tombstones(ids)) == [] && AllReadable(Tombstones(ids))
    decreases |ids|
  {
    if ids != [] {
      assert Tombstones(ids)[1..] == Tombstones(ids[1..]);
      TombstonesAreSilent(ids[1..]);
    }
  }

  /** A reported rollback of a readable vault leaves the listing as it was exactly when the
      failed add left the file alone; the table has grown by one tombstone per undone add. */
  lemma RollbackRestoresListing(env: Env, keys: Keys, disk: Bytes, slots: seq<Slot>, items: seq<PlainItem>,
                                adds: nat -> Draws, dels: nat -> Draws)
    requires GoodEnv(env) && Refines(env, keys, disk, slots) && FreshAdds(slots, adds, |items|) && AllReadable(slots)
    requires ImportItems(env, keys, disk, items, adds, dels).1 == Err(InvalidState)
    ensures var after := ImportItems(env, keys, disk, items, adds, dels).0;
            var ids := AddItems(env, keys, disk, items, adds).ids;
            var leaked := Leaked(env, keys, disk, items, adds);
            && (ListVault(env, keys, after) == ListVault(env, keys, disk) <==> leaked == [])
            && Refines(env, keys, after, slots + Tombstones(ids) + leaked)
  {
    hide GoodEnv, Refines, ImportItems, AddItems, Leaked, NewSlots, Tombstones, ListVault, AllReadable, LiveSummaries,
         HasId, FreshAdds;
    var after := ImportItems(env, keys, disk, items, adds, dels).0;
    var ids := AddItems(env, keys, disk, items, adds).ids;
    var leaked := Leaked(env, keys, disk, items, adds);
    var m := ImportOutcome(env, keys, disk, slots, items, adds, dels);
    NewSlotsLength(items[..|ids|], adds);
    var now := slots + Tombstones(ids) + leaked;
    assert ids[..m] == ids && NewSlots(items[..|ids|], adds)[m..] == [];
    assert slots + Tombstones(ids) + [] + leaked == now;
    ListShowsLiveItems(env, keys, disk, slots);
    ListShowsLiveItems(env, keys, after, now);
    SummariesConcat(slots, Tombstones(ids));
    SummariesConcat(slots + Tombstones(ids), leaked);
    TombstonesAreSilent(ids);
    assert LiveSummaries(slots) + [] == LiveSummaries(slots);
    ReadableConcat(slots, Tombstones(ids));
    ReadableConcat(slots + Tombstones(ids), leaked);
    LeakIsLive(env, keys, disk, items, adds);
  }

  lemma NewSlotsLength(items: seq<PlainItem>, adds: nat -> Draws)
    ensures |NewSlots(items, adds)| == |items|
  {}

  lemma ReadableConcat(xs: seq<Slot>, ys: seq<Slot>)
    ensures AllReadable(xs + ys) <==> AllReadable(xs) && AllReadable(ys)
  {
    assert forall s :: s in xs + ys <==> s in xs || s in ys;
  }

  lemma LeakIsLive(env: Env, keys: Keys, disk: Bytes, items: seq<PlainItem>, adds: nat -> Draws)
    ensures var leaked := Leaked(env, keys, disk, items, adds);
            |LiveSummaries(leaked)| == |leaked| && (leaked == [] ==> AllReadable(leaked))
  {
    hide AddItems, AddFile;
    var leaked := Leaked(env, keys, disk, items, adds);
    if leaked != [] { assert leaked[1..] == []; }
  }

  /** A rollback that is not disturbed by a late I/O error: the live list is as before. */
  lemma UndisturbedRollback(env: Env, keys: Keys, disk: Bytes, slots: seq<Slot>, items: seq<PlainItem>,
                            adds: nat -> Draws, dels: nat -> Draws)
    requires GoodEnv(env) && Refines(env, keys, disk, slots) && FreshAdds(slots, adds, |items|)
    requires forall i: nat :: i < |items| ==> adds(i).io != RenamedNotSynced
    requires ImportItems(env, keys, disk, items, adds, dels).1 == Err(InvalidState)
    ensures ListVault(env, keys, ImportItems(env, keys, disk, items, adds, dels).0) == ListVault(env, keys, disk)
  {
    hide GoodEnv, Refines, ImportItems, AddItems, NewSlots, Tombstones, ListVault, AllReadable, LiveSummaries, HasId,
         FreshAdds, AddFile;
    var after := ImportItems(env, keys, disk, items, adds, dels).0;
    var ids := AddItems(env, keys, disk, items, adds).ids;
    assert Leaked(env, keys, disk, items, adds) == [];
    var m := ImportOutcome(env, keys, disk, slots, items, adds, dels);
    NewSlotsLength(items[..|ids|], adds);
    var now := slots + Tombstones(ids);
    assert ids[..m] == ids && NewSlots(items[..|ids|], adds)[m..] == [];
    assert slots + Tombstones(ids) + [] + [] == now;
    ListShowsLiveItems(env, keys, disk, slots);
    ListShowsLiveItems(env, keys, after, now);
    SummariesConcat(slots, Tombstones(ids));
    TombstonesAreSilent(ids);
    assert LiveSummaries(slots) + [] == LiveSummaries(slots);
    ReadableConcat(slots, Tombstones(ids));
  }

  // ---- when nothing goes wrong --------------------------------------------------------------------------------------

  predicate AllCommitted(draws: nat -> Draws, n: nat) { forall i: nat :: i < n ==> draws(i).io == Committed }

  /** Readable items are all added when the table has room for them and no I/O fails. */
  lemma {:induction false} AddItemsSucceed(env: Env, keys: Keys, disk: Bytes, slots: seq<Slot>, items: seq<PlainItem>,
                                           adds: nat -> Draws)
    requires GoodEnv(env) && Refines(env, keys, disk, slots) && FreshAdds(slots, adds, |items|)
    requires AllWithin(items, STORE_LIMITS) && |slots| + |items| <= CAPACITY
    requires AllCommitted(adds, |items|)
    ensures AddItems(env, keys, disk, items, adds).ok
    decreases |items|
  {
    hide GoodEnv, Refines, AddFile, NewSlots, Within, Storable, HasId;
    if items != [] {
      var n := |items| - 1;
      var init := items[..n];
      AddItemsSucceed(env, keys, disk, slots, init, adds);
      AddItemsRefine(env, keys, disk, slots, init, adds);
      assert init[..n] == init;
      var grown := slots + NewSlots(init, adds);
      assert grown + [] == grown;
      NewSlotsLength(init, adds);
      assert items[n] in items;
      ReadableIsStorable(items[n]);
      AddSucceedsExactly(env, keys, AddItems(env, keys, disk, init, adds).disk, grown, items[n], adds(n));
    }
  }

  /** A rollback without I/O failures always completes. */
  lemma {:induction false} RollbackSucceeds(env: Env, keys: Keys, disk: Bytes, slots: seq<Slot>, ids: seq<Bytes16>,
                                            dels: nat -> Draws)
    requires GoodEnv(env) && Refines(env, keys, disk, slots) && |slots| <= CAPACITY
    requires forall id :: id in ids ==> HasId(slots, id)
    requires AllCommitted(dels, |ids|)
    ensures DeleteItems(env, keys, disk, ids, dels).1
    decreases |ids|
  {
    hide GoodEnv, Refines, DeleteFile, Buried, HasId;
    if ids != [] {
      var n := |ids| - 1;
      var init := ids[..n];
      RollbackSucceeds(env, keys, disk, slots, init, dels);
      var m := DeleteItemsRefine(env, keys, disk, slots, init, dels);
      assert init[..n] == init && ids[n] in ids;
      var before := DeleteItems(env, keys, disk, init, dels).0;
      BuriedKeepsIds(slots, init, ids[n]);
      DeleteSucceedsExactly(env, keys, before, Buried(slots, init), ids[n], dels(n));
    }
  }

  lemma BuriedKeepsIds(slots: seq<Slot>, ids: seq<Bytes16>, id: Bytes16)
    requires HasId(slots, id)
    ensures |Buried(slots, ids)| == |slots|
    ensures FindSlot(Buried(slots, ids), id).Some? || Slot(id, None) in Buried(slots, ids)
  {
    var b := Buried(slots, ids);
    var s :| s in slots && s.id == id;
    var p :| 0 <= p < |slots| && slots[p] == s;
    assert b[p].id == id && b[p] in b;
    if FindSlot(b, id).None? { NoLiveSlot(b, id); }
  }

  /** Only an I/O failure of the rollback itself makes an import partial; and without any I/O
      failure an import of readable items succeeds whenever the table has room for them. */
  lemma ImportSucceeds(env: Env, keys: Keys, disk: Bytes, slots: seq<Slot>, items: seq<PlainItem>,
                       adds: nat -> Draws, dels: nat -> Draws)
    requires GoodEnv(env) && Refines(env, keys, disk, slots) && FreshAdds(slots, adds, |items|)
    requires |slots| + |items| <= CAPACITY
    ensures AllCommitted(dels, |items|) ==>
              ImportItems(env, keys, disk, items, adds, dels).1 != Err(PartialImport)
    ensures AllWithin(items, STORE_LIMITS) && AllCommitted(adds, |items|) ==>
              ImportItems(env, keys, disk, items, adds, dels).1.Ok?
  {
    hide GoodEnv, Refines, AddItems, DeleteItems, Leaked, NewSlots, HasId, FreshAdds, AllWithin;
    if AllWithin(items, STORE_LIMITS) && AllCommitted(adds, |items|) {
      AddItemsSucceed(env, keys, disk, slots, items, adds);
    }
    var added := AddItems(env, keys, disk, items, adds);
    if !added.ok && AllCommitted(dels, |items|) {
      var imported, leaked := NewSlots(items[..|added.ids|], adds), Leaked(env, keys, disk, items, adds);
      var grown := slots + imported + leaked;
      AddItemsRefine(env, keys, disk, slots, items, adds);
      NewSlotsAt(items[..|added.ids|], adds);
      forall id | id in added.ids ensures HasId(grown, id) {
        var i :| 0 <= i < |added.ids| && added.ids[i] == id;
        assert grown[|slots| + i] == imported[i];
        HasIdAt(grown, |slots| + i);
      }
      RollbackSucceeds(env, keys, added.disk, grown, added.ids, dels);
    }
  }

  lemma HasIdAt(slots: seq<Slot>, i: nat)
    requires i < |slots|
    ensures HasId(slots, slots[i].id)
  {
    assert slots[i] in slots;
  }

  // ---- from vault to vault ------------------------------------------------------------------------------------------

  /** Exporting one vault and importing the bundle into another appends exactly the source's
      live items, in list order and under the fresh ids, and changes no other slot; it succeeds
      if the target has room for them and no I/O fails. A source with more than 4096 live items
      is refused with nothing written. */
  lemma MigrationRoundTrip(env: Env, derive: Derive, passphrase: Bytes, vaultId: Bytes16, nonce: Bytes24,
                           keys: Keys, disk: Bytes, slots: seq<Slot>,
                           toKeys: Keys, toDisk: Bytes, toSlots: seq<Slot>, adds: nat -> Draws, dels: nat -> Draws)
    requires GoodEnv(env) && Refines(env, keys, disk, slots) && Refines(env, toKeys, toDisk, toSlots)
    requires ExportVault(env, keys, derive, vaultId, disk, passphrase, nonce).Ok?
    requires FreshAdds(toSlots, adds, |LiveItems(slots)|)
    ensures var items := LiveItems(slots);
            var bundle := ExportVault(env, keys, derive, vaultId, disk, passphrase, nonce).value;
            var (after, r) := ImportBundle(env, toKeys, derive, toDisk, bundle, passphrase, adds, dels);
            && (|items| > MAX_EXPORT_ITEM_COUNT ==> r == Err(Format) && after == toDisk)
            && (r.Ok? ==>
                  && |r.value| == |items| && (forall i :: 0 <= i < |items| ==> r.value[i] == adds(i).recordId)
                  && Refines(env, toKeys, after, toSlots + NewSlots(items, adds)))
            && (|items| <= MAX_EXPORT_ITEM_COUNT && |toSlots| + |items| <= CAPACITY && AllCommitted(adds, |items|)
                ==> r.Ok?)
  {
    hide GoodEnv, Refines, ImportItems, AddItems, NewSlots, FreshAdds, ExportVault, Authenticate, PrintItemSet,
         AllWithin, AllReadable;
    SortsOf(env);
    ExportSucceedsExactly(env, keys, derive, vaultId, disk, slots, passphrase, nonce);
    ExportedBundleAuthenticates(env, keys, derive, vaultId, disk, slots, passphrase, nonce);
    if |LiveItems(slots)| <= MAX_EXPORT_ITEM_COUNT {
      if |toSlots| + |LiveItems(slots)| <= CAPACITY {
        ImportSucceeds(env, toKeys, toDisk, toSlots, LiveItems(slots), adds, dels);
      }
      var m := ImportOutcome(env, toKeys, toDisk, toSlots, LiveItems(slots), adds, dels);
    }
  }

  function ListedAs(items: seq<PlainItem>, adds: nat -> Draws): seq<Summary> {
    seq(|items|, i requires 0 <= i < |items| => SlotSummary(adds(i).recordId, items[i]))
  }

  /** What the target then shows: its own ids as before, and under each new id the item the
      source held; the listing is the old one followed by the source's items in order. */
  lemma MigratedVaultShowsBoth(env: Env, keys: Keys, before: Bytes, slots: seq<Slot>, after: Bytes,
                               items: seq<PlainItem>, adds: nat -> Draws)
    requires Refines(env, keys, before, slots) && Refines(env, keys, after, slots + NewSlots(items, adds))
    requires AllWithin(items, STORE_LIMITS)
    ensures forall id :: HasId(slots, id) ==> WithItem(env, keys, after, id) == WithItem(env, keys, before, id)
    ensures forall i :: 0 <= i < |items| ==> WithItem(env, keys, after, adds(i).recordId) == Ok(items[i])
    ensures ListVault(env, keys, before).Ok? ==>
              ListVault(env, keys, after)
              == Ok(ListVault(env, keys, before).value
                    + ListedAs(items, adds))
  {
    hide Refines, WithItem, ListVault, Within, LiveSummaries, NewSlots;
    var now := slots + NewSlots(items, adds);
    NewSlotsLength(items, adds);
    NewSlotsAt(items, adds);
    RefinedSlotsAreDistinct(env, keys, after, now);
    forall id | HasId(slots, id) ensures WithItem(env, keys, after, id) == WithItem(env, keys, before, id) {
      WithItemShowsSlot(env, keys, before, slots, id);
      WithItemShowsSlot(env, keys, after, now, id);
      SameSlot(slots, NewSlots(items, adds), id);
    }
    forall i | 0 <= i < |items| ensures WithItem(env, keys, after, adds(i).recordId) == Ok(items[i]) {
      WithItemShowsSlot(env, keys, after, now, adds(i).recordId);
      assert now[|slots| + i] == Slot(adds(i).recordId, Some(items[i]));
      FindSlotByIndex(now, |slots| + i);
      assert items[i] in items;
    }
    ListShowsLiveItems(env, keys, before, slots);
    ListShowsLiveItems(env, keys, after, now);
    SummariesConcat(slots, NewSlots(items, adds));
    NewSummaries(items, adds);
    ReadableConcat(slots, NewSlots(items, adds));
  }

  lemma NewSlotsAt(items: seq<PlainItem>, adds: nat -> Draws)
    ensures |NewSlots(items, adds)| == |items|
    ensures forall i :: 0 <= i < |items| ==> NewSlots(items, adds)[i] == Slot(adds(i).recordId, Some(items[i]))
  {}

  lemma SameSlot(xs: seq<Slot>, ys: seq<Slot>, id: Bytes16)
    requires DistinctSlots(xs + ys) && HasId(xs, id)
    ensures FindSlot(xs + ys, id) == FindSlot(xs, id)
  {
    var s :| s in xs && s.id == id;
    var p :| 0 <= p < |xs| && xs[p] == s;
    assert (xs + ys)[p] == s;
    FindSlotByIndex(xs + ys, p);
    assert DistinctSlots(xs) by {
      forall i, j | 0 <= i < j < |xs| ensures xs[i].id != xs[j].id { assert (xs + ys)[i].id != (xs + ys)[j].id; }
    }
    FindSlotByIndex(xs, p);
  }

  lemma {:induction false} NewSummaries(items: seq<PlainItem>, adds: nat -> Draws)
    requires AllWithin(items, STORE_LIMITS)
    ensures LiveSummaries(NewSlots(items, adds)) == ListedAs(items, adds)
    ensures AllReadable(NewSlots(items, adds))
    decreases |items|
  {
    hide Within;
    if items != [] {
      var n := |items| - 1;
      var init, last := items[..n], [Slot(adds(n).recordId, Some(items[n]))];
      assert forall i :: i in init ==> i in items;
      NewSummaries(init, adds);
      NewSlotsSnoc(items, adds);
      SummariesConcat(NewSlots(init, adds), last);
      assert last[1..] == [];
      assert LiveSummaries(last) == [SlotSummary(adds(n).recordId, items[n])];
      assert items[n] in items;
      ReadableConcat(NewSlots(init, adds), last);
    }
  }

  // ---- the loops ----------------------------------------------------------------------------------------------------

  /** `serialize_live_item_set`, appending to `out`. */
  method WriteLiveItemSet(env: Env, keys: Keys, disk: Bytes) returns (r: Result<Bytes, CoreError>)
    ensures r == LiveItemSet(env, keys, disk)
  {
    hide WithItem, ListVault, SerializePayload, U32;
    var listed :- ListDisk(env, keys, disk);
    var count :- TryU32(|listed|, Format);
    var out: Bytes := U32(count);
    assert listed[0..] == listed;
    for i := 0 to |listed|
      invariant LiveItemSet(env, keys, disk) == Front(out, PrintListed(env, keys, disk, listed[i..]))
    {
      assert listed[i..][1..] == listed[i + 1..];
      var item :- WithItem(env, keys, disk, listed[i].id);
      var chunk :- SerializePayload(item);
      FrontMore(out, chunk, PrintListed(env, keys, disk, listed[i + 1..]));
      out := out + chunk;
    }
    assert out + [] == out;
    r := Ok(out);
  }

  lemma {:induction false} FailureStays(env: Env, keys: Keys, disk: Bytes, items: seq<PlainItem>, adds: nat -> Draws,
                                        n: nat)
    requires n <= |items| && !AddItems(env, keys, disk, items[..n], adds).ok
    ensures AddItems(env, keys, disk, items, adds) == AddItems(env, keys, disk, items[..n], adds)
    decreases |items|
  {
    hide AddVault;
    if n < |items| {
      var init := items[..|items| - 1];
      assert init[..n] == items[..n];
      FailureStays(env, keys, disk, init, adds, n);
    } else {
      assert items[..n] == items;
    }
  }

  lemma AddOneMore(env: Env, keys: Keys, disk: Bytes, items: seq<PlainItem>, adds: nat -> Draws, i: nat)
    requires i < |items| && AddItems(env, keys, disk, items[..i], adds).ok
    ensures var before := AddItems(env, keys, disk, items[..i], adds);
            var (after, r) := AddVault(env, keys, before.disk, items[i], adds(i));
            AddItems(env, keys, disk, items[..i + 1], adds) ==
              if r.Ok? then Adds(after, before.ids + [r.value], true) else Adds(after, before.ids, false)
  {
    hide AddVault;
    assert items[..i + 1][..i] == items[..i];
  }

  lemma {:induction false} RollbackStays(env: Env, keys: Keys, disk: Bytes, ids: seq<Bytes16>, dels: nat -> Draws,
                                         n: nat)
    requires n <= |ids| && !DeleteItems(env, keys, disk, ids[..n], dels).1
    ensures DeleteItems(env, keys, disk, ids, dels) == DeleteItems(env, keys, disk, ids[..n], dels)
    decreases |ids|
  {
    hide DeleteVault;
    if n < |ids| {
      var init := ids[..|ids| - 1];
      assert init[..n] == ids[..n];
      RollbackStays(env, keys, disk, init, dels, n);
    } else {
      assert ids[..n] == ids;
    }
  }

  lemma DeleteOneMore(env: Env, keys: Keys, disk: Bytes, ids: seq<Bytes16>, dels: nat -> Draws, j: nat)
    requires j < |ids| && DeleteItems(env, keys, disk, ids[..j], dels).1
    ensures var (after, r) := DeleteVault(env, keys, DeleteItems(env, keys, disk, ids[..j], dels).0, ids[j], dels(j));
            DeleteItems(env, keys, disk, ids[..j + 1], dels) == (after, r.Ok?)
  {
    hide DeleteVault;
    assert ids[..j + 1][..j] == ids[..j];
  }

  method RollBack(env: Env, keys: Keys, disk: Bytes, ids: seq<Bytes16>, dels: nat -> Draws)
    returns (after: Bytes, ok: bool)
    ensures (after, ok) == DeleteItems(env, keys, disk, ids, dels)
  {
    hide DeleteVault;
    after, ok := disk, true;
    var j := 0;
    while j < |ids| && ok
      invariant j <= |ids| && (after, ok) == DeleteItems(env, keys, disk, ids[..j], dels)
      decreases |ids| - j
    {
      DeleteOneMore(env, keys, disk, ids, dels, j);
      var deleted;
      after, deleted := DeleteFromDisk(env, keys, after, ids[j], dels(j));
      ok := deleted.Ok?;
      j := j + 1;
    }
    if !ok { RollbackStays(env, keys, disk, ids, dels, j); }
    assert ok ==> ids[..j] == ids;
  }

  /** `import`: the loop over the items, and the rollback of the first failure. */
  method Import(env: Env, keys: Keys, derive: Derive, disk: Bytes, bytes: Bytes, passphrase: Bytes,
                adds: nat -> Draws, dels: nat -> Draws)
    returns (after: Bytes, r: Result<seq<Bytes16>, CoreError>)
    ensures (after, r) == ImportBundle(env, keys, derive, disk, bytes, passphrase, adds, dels)
    ensures r.Err? && (r.error == Auth || r.error == Format) ==> after == disk
  {
    hide Authenticate, AddVault, DeleteItems;
    after := disk;
    var authenticated := Authenticate(env.aead, derive, bytes, passphrase);
    if authenticated.Err? { r := Err(authenticated.error); return; }
    var items := authenticated.value;
    var imported: seq<Bytes16> := [];
    assert items[..0] == [];
    for i := 0 to |items|
      invariant AddItems(env, keys, disk, items[..i], adds) == Adds(after, imported, true)
    {
      AddOneMore(env, keys, disk, items, adds, i);
      var added;
      after, added := AddToDisk(env, keys, after, items[i], adds(i));
      if added.Err? {
        FailureStays(env, keys, disk, items, adds, i + 1);
        var rolledBack;
        after, rolledBack := RollBack(env, keys, after, imported, dels);
        r := Err(if rolledBack then InvalidState else PartialImport);
        return;
      }
      imported := imported + [added.value];
    }
    assert items[..|items|] == items;
    r := Ok(imported);
  }
}
