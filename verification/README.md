# MeissnerSeal core: formats, item store, persistence and transfer

A Dafny model of the `meissnerseal-core` crate. It proves that

- the vault file, a byte string with a sealed table of offsets that every mutation rewrites, is an
  ordered map from id to live item or tombstone, over every run of operations, and stays
  unlockable with its password;
- persistence through claim, temporary file and rename is safe under every interleaving, I/O failure
  and crash, so that the path always loads and shows the old history continued by complete operations;
- a transfer envelope that is created opens to its payload, is delivered at most once while the clock moves
  forward, and what is delivered was sent;
- export and import carry exactly the live items over, and rollback undoes what it says;
- device key files and identity texts round-trip exactly under stated conditions;
- with an ideal AEAD, nothing is ever read that an honest party did not seal for that very place.

Check it with `dafny verify dfyconfig.toml`.

## How the model is built

Bytes are `seq<byte>`; integers carry their widths as subset types, and every `try_from` of a length is an
explicit test. A Rust `String` is its UTF-8 bytes, with the well-formedness of Table 3-7 of the Unicode
Standard. `Result` keeps the error kinds of the crate.

Each operation has a specification function, and where the source is a loop or updates an object there is
a method with that loop, or a class with those fields, proved equal to the function: the
cursor parser, the header and table loops, staging and rewriting, the vault file, the replay store, the import loop with
its rollback, the directory that the persistence calls act on. The theorems are about the functions, so
they hold of the methods.

Cryptography is a parameter: records of arbitrary functions. A theorem names the law it needs. `Lawful` is that
decryption inverts encryption and adds a 16-byte tag; `LawfulSuite` adds commutativity of Diffie-Hellman
(section 6.1 of RFC 7748), correctness of ML-KEM (FIPS 203) and of signatures. `Ideal` is authenticity: nothing decrypts
unless it was encrypted under that key, nonce and associated data; it is used only where provenance is the claim, and
never together with `Lawful`. The authenticity of envelopes assumes in addition that no signature verifies
without having been made (`Unforgeable`), that the receiver's key and the sender's signing key are used honestly, and that the
transcript hashes concerned do not collide (`NoCollision`). Lemmas show that each of these can be met (`Crypto.LawfulIsSatisfiable`, `Transfer.LawsAreSatisfiable`, `Crypto.IdealIsSatisfiable`, `Authenticity.IdealWorldExists`, `FrameExtents.SorterExists`),
and `VaultSession.SessionsExist` with `VaultSession.CreatedVaultOpens` gives a file from which every run of the item store starts. The table sort is any function that returns a
permutation ordered by start.

Randomness, clock readings and the outcome of each I/O call are arguments. Fresh ids are assumed not to
collide with ids added before; that is a precondition of the run theorems (`FreshDraws`, `FreshAdds`).

Modules follow the source: `Wire`, `Errors`, `Crypto` (shared); `KdfProfile`, `Header`, `FrameExtents`, `SealedTable`, `RecordFrame`
(vault/format.rs and the frame scanner of vault/engine.rs); `ItemPayload`, `VaultIndex`, `ItemStore`, `VaultRuns`, `Capacity`, `Provenance`, `RunProvenance` (item/store.rs);
`VaultSession`, `Persistence`, `PersistCalls`, `CrashSafety` (vault/engine.rs); `Replay`, `EnvelopeWire`, `Transfer`, `Authenticity` (transfer/); `ExportBundle`, `Migration` (export.rs);
`DeviceKeys`, `IdentityText` (keys/device.rs).

## Where code and documentation part, and what is false

The model follows the code.

- item/store.rs:532 speaks of a 74-byte record AAD; `build_aad` makes 79 bytes.
- `add`, `update`, `delete` and `persist_vault_mutation_v2` promise that an error leaves nothing behind. If the
  directory sync fails after the rename, the error is reported with the new bytes in place. It happens for every
  mutator (`Persistence.LateErrorHappens`), and exactly when the rename ran
  (`Persistence.ErrorLeavesPathAloneExactly`; for the slots `VaultRuns.VaultFile.Add`, `Update` and `Delete`).
- `import` promises that any failure writes nothing. A rollback leaves one tombstone per undone add, and an add that
  failed after its rename stays live. Exactly when nothing is written: `Migration.FailedImportWritesNothingExactly`;
  an instance in every vault with room: `Migration.FailedImportWrites`; exactly when the listing is restored:
  `Migration.RollbackRestoresListing`.
- `add` and `update` accept items that no reader accepts; one such live item makes `list` fail
  (`ItemStore.ListShowsLiveItems`, exact; `Capacity.OversizedItemBlindsList`, `Capacity.OversizedItemExists`).
- Cleanup of a failed creation removes whatever is at the vault path by then, also a mutation that has meanwhile returned
  Ok. `Persistence.MutationSurvivesExactly` says when that cannot happen.
- `create_envelope` documents that the anonymous key equals the recipient key and checks only that it is present
  (`Transfer.AnonymousKeyMustBeTheRecipients`, exact up to a hash collision; `Transfer.AnonymousMismatchHappens`).
- `check_and_insert` has no cap, but a store of more than 65,536 entries cannot be loaded again (`Replay.StoreRoundTrip`, exact).
- The neighbour test on frames can refuse a disjoint set, because the unstable sort may put a zero-length frame behind a
  longer one with the same start. `FrameExtents.VerdictIsExactForEverySort` says exactly for which sets the verdict
  does not depend on the sort.
- An envelope id does not protect after its expiry, nor against a clock that goes back: `Replay.AcceptedAgainExactly` and
  `Transfer.DeliveredAgainExactly` say exactly when an id is accepted and delivered again.
- The hexadecimal reader takes a plus sign in front of one digit, as the library's radix parser does, and upper-case digits; the
  decimal reader takes a leading plus sign and leading zeros; lines may end in a carriage return or come in
  another order. The text format is therefore not canonical (`IdentityText.TextIsNotCanonical`), and
  `IdentityText.TextIsCanonicalExactly` says which accepted texts are the written ones.

## Model

| member | source | states |
|---|---|---|
| VaultRuns.VaultShowsItsHistory | crates/meissnerseal-core/src/item/store.rs:545-829 | After any run of add, update and delete from a fresh vault, with any I/O outcomes: the table has one entry per add that reached the disk, in order; `with_item` shows the last thing written to an id and finds neither unknown nor deleted ids; `list` shows the live items in insertion order, unless one of them exceeds the reader's ceilings |
| VaultRuns.RunRefinesHistory | crates/meissnerseal-core/src/item/store.rs:390-829 | Over every run the bytes on disk refine an ordered map from id to live item or tombstone |
| VaultRuns.StepOnSlots | crates/meissnerseal-core/src/item/store.rs:545-829 | One operation commits at most one change, and the new bytes represent the slots with that change |
| VaultRuns.StepRefines | crates/meissnerseal-core/src/item/store.rs:545-829 | One operation on a file that images a history gives a file that images the extended history |
| VaultRuns.HistoryLookup | crates/meissnerseal-core/src/item/store.rs:508-513 | Looking an id up in the slots gives exactly the last write of the history |
| VaultRuns.HistoryStep | crates/meissnerseal-core/src/item/store.rs:478-505 | Appending one event to a history is the matching change of one slot |
| VaultRuns.AddedIdsAreDistinct | crates/meissnerseal-core/src/item/store.rs:66-70 | No id is ever added twice |
| VaultRuns.DeletedStaysDeleted | crates/meissnerseal-core/src/item/store.rs:793-829 | A deleted id never becomes live again |
| VaultRuns.DeleteIsIdempotent | crates/meissnerseal-core/src/item/store.rs:793-829 | Deleting a deleted id succeeds and leaves every byte of the file alone |
| VaultRuns.DeleteOfLiveWrites | crates/meissnerseal-core/src/item/store.rs:793-829 | Deleting a live item is never mistaken for an idempotent delete |
| VaultRuns.Rewrite | crates/meissnerseal-core/src/item/store.rs:390-505 | Stage, lay out, persist: the file is replaced only by the complete new bytes |
| VaultRuns.AddToDisk | crates/meissnerseal-core/src/item/store.rs:545-571 | The statements of `add` compute the specified bytes and verdict |
| VaultRuns.UpdateOnDisk | crates/meissnerseal-core/src/item/store.rs:742-770 | The statements of `update`, with the not-found exit |
| VaultRuns.DeleteFromDisk | crates/meissnerseal-core/src/item/store.rs:793-829 | The statements of `delete`, with the idempotent exit |
| VaultRuns.ListDisk | crates/meissnerseal-core/src/item/store.rs:592-610 | The statements of `list` |
| VaultRuns.VaultFile.Add | crates/meissnerseal-core/src/item/store.rs:545-571 | On the vault object, for every outcome: the live slot is appended exactly when the item fits, there is room and the rename ran, otherwise no byte changes; Ok exactly when the directory sync succeeded too |
| VaultRuns.VaultFile.Update | crates/meissnerseal-core/src/item/store.rs:742-770 | For every outcome: the one live slot is replaced in place exactly when there is one, the item fits and the rename ran, otherwise no byte changes; an unknown or deleted id is not found |
| VaultRuns.VaultFile.Delete | crates/meissnerseal-core/src/item/store.rs:793-829 | For every outcome: the live slot becomes a tombstone at its position exactly when there is one and the rename ran, otherwise no byte changes; a tombstone is Ok, an unknown id is not found |
| VaultRuns.VaultFile.List | crates/meissnerseal-core/src/item/store.rs:592-610 | The live items in insertion order, or a format error if one of them is unreadable |
| ItemStore.BuiltFrameOpens | crates/meissnerseal-core/src/item/store.rs:284-386 | Opening a built item frame through both key layers gives back the payload that was sealed |
| ItemStore.CommittedFileRefines | crates/meissnerseal-core/src/item/store.rs:390-474 | Rewriting staged records that hold an abstract vault gives a file that represents it |
| ItemStore.AddFileRefines | crates/meissnerseal-core/src/item/store.rs:545-571 | The file `add` writes represents the old slots and one more |
| ItemStore.UpdateFileRefines | crates/meissnerseal-core/src/item/store.rs:742-770 | The file `update` writes differs in the one live slot; otherwise not found |
| ItemStore.DeleteFileRefines | crates/meissnerseal-core/src/item/store.rs:793-829 | The file `delete` writes differs in one slot, now a tombstone; writes nothing exactly for a tombstone; not found exactly for an unknown id |
| ItemStore.LivePositionsAgree | crates/meissnerseal-core/src/item/store.rs:508-513 | The position of a live id in the table is its position in the abstract vault |
| ItemStore.TombstonesAgree | crates/meissnerseal-core/src/item/store.rs:798-808 | An id has a tombstone entry exactly when its slot is a tombstone |
| ItemStore.RefinedSlotsAreDistinct | crates/meissnerseal-core/src/vault/format.rs:793-811 | A file that opens never holds an id twice, live or not |
| ItemStore.ReadHeldItem | crates/meissnerseal-core/src/item/store.rs:335-386 | A live item reads back exactly when it obeys the four ceilings |
| ItemStore.ListShowsLiveItems | crates/meissnerseal-core/src/item/store.rs:592-610 | `list` shows the live items in table order; it fails exactly when a live item exceeds a ceiling |
| ItemStore.WithItemShowsSlot | crates/meissnerseal-core/src/item/store.rs:697-718 | `with_item` shows exactly the item of the live slot |
| ItemStore.ListLoop | crates/meissnerseal-core/src/item/store.rs:592-610 | The loop of `list` over the table |
| Capacity.AddSucceedsExactly | crates/meissnerseal-core/src/item/store.rs:545-571 | `add` gets as far as writing exactly when the item fits a frame and the table holds fewer than 2^26 records, tombstones included |
| Capacity.UpdateSucceedsExactly | crates/meissnerseal-core/src/item/store.rs:742-770 | `update` gets as far as writing exactly when the id is live, the item fits and the table is within capacity |
| Capacity.DeleteSucceedsExactly | crates/meissnerseal-core/src/item/store.rs:793-829 | `delete` succeeds up to I/O for every live id of a vault within capacity and for every tombstone, and for nothing else |
| Capacity.RewriteSucceedsExactly | crates/meissnerseal-core/src/item/store.rs:390-474 | A rewrite of legal records fails only if a frame or the table outgrows its 32-bit length |
| Capacity.SectionFits | crates/meissnerseal-core/src/vault/format.rs:854-866 | The padded table section fits its length field exactly up to 2^26 records |
| Capacity.BuildSucceedsExactly | crates/meissnerseal-core/src/item/store.rs:284-316 | A frame is built and fits its table field exactly when the payload is at most 2^32 - 269 bytes |
| Capacity.ReadableIsStorable | crates/meissnerseal-core/src/item/store.rs:156-258 | Whatever the reader accepts can be stored |
| Capacity.OversizedItemBlindsList | crates/meissnerseal-core/src/item/store.rs:545-610 | Adding a storable item outside the reader's ceilings succeeds, and from then on `list` fails |
| Capacity.OversizedItemExists | crates/meissnerseal-core/src/item/store.rs:545-610 | There is such an item |
| VaultIndex.RewrittenVaultLoads | crates/meissnerseal-core/src/item/store.rs:96-474 | Loading the rewritten file succeeds exactly when the staged ids are distinct; then ids, kinds and revisions come back in order, each extent is byte for byte the staged frame, the frames tile the file from the end of the table to its end, and header and wrapped-root-key bytes are unchanged |
| VaultIndex.LoadOfSections | crates/meissnerseal-core/src/vault/format.rs:1095-1117 | The same for any file assembled from header, root frame, sealed table and frames |
| VaultIndex.LaidOutFramesTile | crates/meissnerseal-core/src/item/store.rs:408-447 | Offsets computed before sealing describe frames laid end to end |
| VaultIndex.TiledEntriesAreWellPlaced | crates/meissnerseal-core/src/vault/format.rs:793-833 | Tiled frames pass the reader's placement rules exactly when ids are distinct |
| VaultIndex.LoadedIsWellFormed | crates/meissnerseal-core/src/item/store.rs:96-126 | Everything a load promises: parsed header, measured root frame, distinct ids, extents inside the file |
| VaultIndex.LoadVaultFile | crates/meissnerseal-core/src/item/store.rs:96-126 | The statements of `load_vault` |
| VaultIndex.StagingIsExact | crates/meissnerseal-core/src/item/store.rs:478-505 | Staging keeps every other record verbatim and in order; the replacement takes its position or the end |
| VaultIndex.StageRecordsLoop | crates/meissnerseal-core/src/item/store.rs:478-505 | The staging loop takes the replacement at most once |
| VaultIndex.RewriteVault | crates/meissnerseal-core/src/item/store.rs:390-474 | The statements of `rewrite_vault` up to persistence |
| VaultIndex.LayOut | crates/meissnerseal-core/src/item/store.rs:413-447 | The loop over the next offset, the entries and the concatenated frames |
| SealedTable.BucketIsLeastPower | crates/meissnerseal-core/src/vault/format.rs:854-866 | The bucket is the least power of two that is at least max(n, 1) |
| SealedTable.SealedLength | crates/meissnerseal-core/src/vault/format.rs:616-658 | The length of a sealed table depends on the number of entries only |
| SealedTable.SealedTableOpens | crates/meissnerseal-core/src/vault/format.rs:616-836 | Opening a sealed table, wherever it sits, gives back exactly the entries written, precisely when they obey the placement rules |
| SealedTable.SealedPlaintextOpens | crates/meissnerseal-core/src/vault/format.rs:720-836 | The same for the padded plaintext |
| SealedTable.OpenedFramesAreDisjoint | crates/meissnerseal-core/src/vault/format.rs:793-833 | Whatever bytes are opened, accepted frames are pairwise disjoint, inside the file, past the root frame and the table, with distinct ids and legal kinds |
| SealedTable.AcceptedPlaintextIsWrittenExactly | crates/meissnerseal-core/src/vault/format.rs:720-866 | The reader takes any large enough power-of-two bucket: an accepted plaintext is the written one exactly when its bucket is the least |
| SealedTable.EntryPosition | crates/meissnerseal-core/src/vault/format.rs:628-640 | Entry k of a printed table sits at its fixed offset |
| SealedTable.ReadPlaintext | crates/meissnerseal-core/src/vault/format.rs:720-836 | The entry loop with its id set and extent list |
| SealedTable.OpenRecordTable | crates/meissnerseal-core/src/vault/format.rs:687-836 | The statements of `open_sealed_record_table_v2` |
| SealedTable.SealRecordTable | crates/meissnerseal-core/src/vault/format.rs:616-658 | The appending loop of `serialize_sealed_record_table_v2` |
| FrameExtents.NeighbourTestIsSound | crates/meissnerseal-core/src/vault/format.rs:815-833 | Sort, then compare neighbours: passing means no two frames share a byte, for any order of ties |
| FrameExtents.NeighbourTestIsExact | crates/meissnerseal-core/src/vault/format.rs:815-833 | When no zero-length frame starts where a longer one does, the test accepts exactly the pairwise disjoint sets, for any order of ties |
| FrameExtents.VerdictIsExactForEverySort | crates/meissnerseal-core/src/vault/format.rs:815-833 | The verdict is right under every lawful sort if and only if two frames share a byte or no zero-length frame starts where a longer one does |
| FrameExtents.TieFailsLongFirst | crates/meissnerseal-core/src/vault/format.rs:815-833 | With such a tie, the sort that puts the longer frame first makes the test fail |
| FrameExtents.DisjointTieExists | crates/meissnerseal-core/src/vault/format.rs:815-833 | A disjoint set of frames with such a tie |
| FrameExtents.SorterExists | crates/meissnerseal-core/src/vault/format.rs:815-833 | A sort with the assumed law exists |
| RecordFrame.AadIsInjective | crates/meissnerseal-core/src/vault/format.rs:1635-1672 | The 79-byte associated data determines vault, version, all five profile words, record, revision and kind |
| RecordFrame.AadFields | crates/meissnerseal-core/src/vault/format.rs:1635-1672 | Where each field of the associated data is |
| RecordFrame.FillAad | crates/meissnerseal-core/src/vault/format.rs:1635-1672 | Filling the array gives the specified 79 bytes |
| RecordFrame.FrameRoundTrip | crates/meissnerseal-core/src/vault/format.rs:1037-1609 | A written frame parses back exactly when its version and profile are 1 and its ciphertext holds a tag; a tombstone therefore never parses |
| RecordFrame.ScannerAgreesWithParser | crates/meissnerseal-core/src/vault/engine.rs:575-613 | Whenever the parser accepts a frame of length L at an offset, the quick scanner returns offset + L |
| RecordFrame.ScannerMeasuresSerializedFrames | crates/meissnerseal-core/src/vault/engine.rs:575-613 | The scanner measures every frame the writer emits, tombstones included, whatever follows |
| RecordFrame.ScanIgnoresSuffix | crates/meissnerseal-core/src/vault/engine.rs:575-606 | What follows a frame does not change its measure |
| RecordFrame.EnvelopeRoundTrip | crates/meissnerseal-core/src/vault/format.rs:914-1013 | The item envelope parses back to what was written |
| Header.HeaderDependsOnKnownTags | crates/meissnerseal-core/src/vault/format.rs:1175-1290 | `parse_header` depends only on which values the known tags carry: permuting TLVs or inserting unknown non-critical ones changes neither verdict nor result |
| Header.LoopRejectsExactly | crates/meissnerseal-core/src/vault/format.rs:1175-1256 | The TLV loop fails exactly on a repeated known tag, an unknown critical tag or a malformed known value |
| Header.HeaderRoundTrip | crates/meissnerseal-core/src/vault/format.rs:413-1290 | Parsing a serialized header gives it back, inside any well-framed file |
| Header.FoldIgnoresOrder | crates/meissnerseal-core/src/vault/format.rs:1175-1256 | Known TLVs can be read in any order |
| Header.AcceptedSectionIsTlvs | crates/meissnerseal-core/src/vault/format.rs:1175-1256 | An accepted header section is a sequence of TLVs and nothing else |
| Header.ReadHeaderFields | crates/meissnerseal-core/src/vault/format.rs:1175-1256 | The while loop over the cursor with its set of seen tags; it terminates |
| Header.HeaderTurn | crates/meissnerseal-core/src/vault/format.rs:1757-1771 | One turn with its duplicate check |
| Header.ParseHeaderBytes | crates/meissnerseal-core/src/vault/format.rs:1133-1290 | The statements of `parse_header` |
| KdfProfile.KdfRoundTrip | crates/meissnerseal-core/src/vault/format.rs:496-1446 | Parsing the serialized KDF parameters gives them back |
| KdfProfile.ParseKdfProfileParams | crates/meissnerseal-core/src/vault/format.rs:1341-1446 | The nested parameter loop |
| ItemPayload.PayloadRoundTrip | crates/meissnerseal-core/src/item/store.rs:156-258 | Decoding an encoded item gives it back exactly when label, tags and secret obey the four ceilings; otherwise the encoding is rejected |
| ItemPayload.AcceptedPayloadIsCanonical | crates/meissnerseal-core/src/item/store.rs:206-258 | Every accepted payload re-encodes to itself and obeys the ceilings |
| ItemPayload.PayloadIsInjective | crates/meissnerseal-core/src/item/store.rs:156-177 | Two items with the same encoding are equal |
| ItemPayload.KindFromU16 | crates/meissnerseal-core/src/item/model.rs:33-62 | Kind words are read back to the kind that wrote them |
| ItemPayload.ItemAt | crates/meissnerseal-core/src/item/store.rs:206-258 | The cursor reads of one item, shared with the export item set |
| ItemPayload.DecodePayload | crates/meissnerseal-core/src/item/store.rs:206-258 | The statements of the payload decoder |
| ItemPayload.DecodeTags | crates/meissnerseal-core/src/item/store.rs:228-240 | The tag loop |
| ItemPayload.WritePayload | crates/meissnerseal-core/src/item/store.rs:156-177 | The appending encoder |
| VaultSession.VaultStaysUnlockable | crates/meissnerseal-core/src/vault/engine.rs:647-726 | Create, run any operations: the password unlocks exactly the keys of creation while the file is at most 64 MiB, and not beyond |
| VaultSession.CreatedVaultOpens | crates/meissnerseal-core/src/vault/engine.rs:209-276 | A created vault unlocks with its password to its keys and holds no item |
| VaultSession.CreateSucceedsExactly | crates/meissnerseal-core/src/vault/engine.rs:209-276 | Creation fails only for an empty password or in the key derivation |
| VaultSession.SessionsExist | crates/meissnerseal-core/src/vault/engine.rs:209-276 | Primitives that obey all the laws exist, and under them a vault is created for every password and every draw |
| VaultSession.RewrittenVaultUnlocks | crates/meissnerseal-core/src/vault/engine.rs:43-726 | After a rewrite the same password unlocks the same keys exactly while ids are distinct and the file is at most 64 MiB |
| VaultSession.UnlockedLoads | crates/meissnerseal-core/src/vault/engine.rs:647-726 | Whatever unlocks also loads under the unlocked keys |
| VaultSession.FreshRootUnwraps | crates/meissnerseal-core/src/keys/hierarchy.rs:159-262 | The root frame gives its keys back to the password that wrapped it |
| VaultSession.RunKeepsRoot | crates/meissnerseal-core/src/item/store.rs:390-474 | No operation of any run touches header or wrapped-root-key frame |
| Provenance.ReadItemsWereBuilt | crates/meissnerseal-core/src/item/store.rs:335-386 | With an ideal AEAD, for arbitrary file bytes, every item read was built for exactly that record id and revision of that vault |
| Provenance.ShownItemsWereBuilt | crates/meissnerseal-core/src/item/store.rs:697-718 | `with_item` never shows anything but an item built under the requested id |
| Provenance.OpenedPayloadWasSealed | crates/meissnerseal-core/src/item/store.rs:284-386 | The two-layer unwrap gives only payloads sealed under the same associated data |
| Provenance.OpenedTableWasWritten | crates/meissnerseal-core/src/vault/format.rs:687-836 | Every table that opens is one that was written for that vault id and that schema |
| Crypto.IdealIsSatisfiable | crates/meissnerseal-core/src/item/store.rs:335-386 | The idealisation is consistent with decrypting everything honest parties encrypted |
| RunProvenance.RunShowsOnlyItsWrites | crates/meissnerseal-core/src/item/store.rs:284-829 | After any run, with an ideal AEAD and for arbitrary bytes in the place of the file, `with_item` shows only an item that an add or update of the run wrote under that very id |
| RunProvenance.RunLogIsHonest | crates/meissnerseal-core/src/item/store.rs:284-316 | What a run encrypts satisfies the honesty that provenance assumes, as long as wrapping key, metadata key and record keys are apart |
| RunProvenance.BuildSealsItsFrame | crates/meissnerseal-core/src/item/store.rs:284-316 | The two encryptions collected for an operation are the ones in the frame it builds |
| Persistence.ExistingVaultIsSafe | crates/meissnerseal-core/src/vault/engine.rs:378-477 | In every interleaving of creators and mutators, with failures and crashes anywhere: an existing vault path always holds the first bytes or one mutator's complete bytes, and no creator returns Ok |
| Persistence.AtMostOneCreatorSucceeds | crates/meissnerseal-core/src/vault/engine.rs:378-423 | At most one creator returns Ok |
| Persistence.CleanupRemovesOwnTmp | crates/meissnerseal-core/src/vault/engine.rs:415-475 | A temporary path only ever holds its own process's file, and success leaves none behind |
| Persistence.TargetIsNeverPartial | crates/meissnerseal-core/src/vault/engine.rs:378-477 | The vault path never shows a partly written file |
| Persistence.CreatorsKeepToThemselves | crates/meissnerseal-core/src/vault/engine.rs:415-420 | In every interleaving with creators and mutators, cleanup of the vault path meets only the cleaner's own file or a mutator's complete file, never another creator's; a successful creator's complete vault is there unless a mutator has replaced it by a complete file |
| Persistence.CreatorsAlone | crates/meissnerseal-core/src/vault/engine.rs:415-420 | Among creators alone cleanup removes only the cleaner's own file, and a successful creator's vault stays |
| Persistence.MutationSurvivesExactly | crates/meissnerseal-core/src/vault/engine.rs:378-477 | A successful mutation stays visible in every interleaving exactly when the vault was there at first or creators and mutators do not meet |
| Persistence.StepFrame | crates/meissnerseal-core/src/vault/engine.rs:378-477 | A step touches no path but the vault path and the process's own temporary path |
| Persistence.RunInv | crates/meissnerseal-core/src/vault/engine.rs:378-554 | The invariant over all interleavings: distinct seeds, own temporary files, one claim holder, complete target |
| Persistence.MutationOutcomes | crates/meissnerseal-core/src/vault/engine.rs:452-477 | Every finished mutation is one of the three outcomes the item store distinguishes: committed, failed before the rename, failed after it with the new bytes in place |
| Persistence.ErrorLeavesPathAloneExactly | crates/meissnerseal-core/src/vault/engine.rs:452-477 | A mutation that ended with an error left the path alone exactly when its rename never ran |
| Persistence.LateErrorHappens | crates/meissnerseal-core/src/vault/engine.rs:452-477 | For every mutator about to start, among any other processes, there is a schedule that ends in an error with its bytes at the path |
| PersistCalls.PersistVault | crates/meissnerseal-core/src/vault/engine.rs:378-554 | Every execution of the creation call, with its claim flag and cleanup, is a run of the step machine |
| PersistCalls.PersistMutation | crates/meissnerseal-core/src/vault/engine.rs:452-477 | Every execution of the mutation call is a run of the step machine |
| PersistCalls.WriteAndRename | crates/meissnerseal-core/src/vault/engine.rs:541-552 | Temporary file, write, sync, rename, directory sync, ending at the first failure |
| CrashSafety.CrashLeavesAVault | crates/meissnerseal-core/src/vault/engine.rs:378-477 | Wherever mutations are interleaved or killed, each loading the path at its own turn, the path loads and shows the first history continued by events of the operations |
| CrashSafety.SysInvariant | crates/meissnerseal-core/src/vault/engine.rs:378-477 | Over all interleavings: each mutator that has loaded is going to persist the vault it loaded with exactly its own event applied, and the path holds the vault of the history shown |
| CrashSafety.CrashLeavesItUnlockable | crates/meissnerseal-core/src/vault/engine.rs:452-726 | And the same password unlocks the same keys, up to 64 MiB |
| CrashSafety.CreatorLeavesItsVault | crates/meissnerseal-core/src/vault/engine.rs:209-423 | A creator that succeeds has left a vault that unlocks with its password and is empty, unless a mutator has since replaced it by a complete file |
| Replay.AtMostOnce | crates/meissnerseal-core/src/transfer/replay.rs:75-162 | In every run with a clock that does not go back, saving and reloading included, no two checks accept the same id and expiry |
| Replay.AcceptedAgainExactly | crates/meissnerseal-core/src/transfer/replay.rs:75-162 | Whatever the clock does: an accepted id is accepted again exactly when the later check is unexpired and some check since, that one included, read a clock at which the first acceptance had expired |
| Replay.HeldUntilEvicted | crates/meissnerseal-core/src/transfer/replay.rs:75-162 | After its acceptance an entry stays, as the only one with its id, exactly until a check reads a clock past its expiry |
| Replay.AcceptedIsRemembered | crates/meissnerseal-core/src/transfer/replay.rs:75-162 | An accepted id stays in the store until the clock has passed its expiry |
| Replay.FailingCheckOnlyEvicts | crates/meissnerseal-core/src/transfer/replay.rs:75-90 | A failing check removes expired entries and nothing else |
| Replay.StoreRoundTrip | crates/meissnerseal-core/src/transfer/replay.rs:108-156 | Saving and loading works exactly for at most 65,536 entries with distinct ids, and reads expiry zero as none |
| Replay.AcceptedStoreIsCanonical | crates/meissnerseal-core/src/transfer/replay.rs:132-156 | Every accepted byte string is the serialization of what it parses to |
| Replay.ReloadIsIdentity | crates/meissnerseal-core/src/transfer/replay.rs:108-156 | Saving and reloading a good store changes nothing |
| Replay.LimitsOfReplayProtection | crates/meissnerseal-core/src/transfer/replay.rs:75-162 | Two instances: the same id is accepted again after its expiry, and again before it when the clock runs backwards |
| Replay.SeenEnvelopeIds.EvictExpired | crates/meissnerseal-core/src/transfer/replay.rs:158-162 | The retaining loop |
| Replay.SeenEnvelopeIds.CheckAndInsert | crates/meissnerseal-core/src/transfer/replay.rs:75-90 | The store and the verdict after a check, with eviction and expiry test reading the clock apart |
| Replay.SeenEnvelopeIds.ToBytes | crates/meissnerseal-core/src/transfer/replay.rs:108-117 | The writing loop |
| Replay.FromBytes | crates/meissnerseal-core/src/transfer/replay.rs:132-156 | The reading loop with its cap and duplicate check |
| EnvelopeWire.TranscriptIsInjective | crates/meissnerseal-core/src/transfer/envelope.rs:300-325 | Equal preimages exactly when every bound field is equal, though the recipient field is untagged; no expiry and expiry zero are identified |
| EnvelopeWire.ZeroExpiryIsAlwaysExpired | crates/meissnerseal-core/src/transfer/envelope.rs:355-359 | The one identified pair is harmless |
| EnvelopeWire.WireRoundTrip | crates/meissnerseal-core/src/transfer/envelope.rs:532-643 | Parsing a printed envelope gives it back exactly when version and profile are 1 and the payload has 1 to 2^32-1 bytes |
| EnvelopeWire.AcceptedWireIsCanonical | crates/meissnerseal-core/src/transfer/envelope.rs:586-643 | Printing a parsed envelope gives the same bytes: truncated, extended and re-encoded input is rejected |
| EnvelopeWire.ParseEnvelopeBytes | crates/meissnerseal-core/src/transfer/envelope.rs:586-643 | The statements of the parser over its cursor |
| Transfer.CreatedEnvelopeOpens | crates/meissnerseal-core/src/transfer/envelope.rs:400-529 | Create, then open with matching keys, a live expiry and an unseen id: the payload comes back in named and anonymous mode and the id is recorded |
| Transfer.DeliveredAtMostOnce | crates/meissnerseal-core/src/transfer/envelope.rs:487-529 | In every run of a receiver, whatever envelopes, keys and reloads, no two opens deliver the same id and expiry |
| Transfer.DeliveredAgainExactly | crates/meissnerseal-core/src/transfer/envelope.rs:487-529 | The same for deliveries: the condition under which an id that was delivered is delivered again, with any clock |
| Transfer.FailedOpenKeepsLiveIds | crates/meissnerseal-core/src/transfer/envelope.rs:487-529 | An error before the replay check leaves the store alone; a failing check only evicts |
| Transfer.AnonymousKeyMustBeTheRecipients | crates/meissnerseal-core/src/transfer/envelope.rs:400-467 | An anonymous envelope opens for the recipient exactly when the bound key is the recipient's own, which creation does not check |
| Transfer.AnonymousMismatchHappens | crates/meissnerseal-core/src/transfer/envelope.rs:400-467 | Under a lawful suite there is a live anonymous envelope that its own recipient refuses |
| Transfer.CreatedEnvelopeSurvivesWire | crates/meissnerseal-core/src/transfer/envelope.rs:34-643 | A created envelope survives printing, parsing and early validation exactly while it is live and its ciphertext fits its length field |
| Transfer.KeysAgree | crates/meissnerseal-pqc/src/hybrid.rs:111-225 | Sender and receiver derive the same key from the same 1216-byte input |
| Transfer.SignedRoundTrip | crates/meissnerseal-core/src/transfer/envelope.rs:722-788 | The signed payload decodes to the signature and payload that were encoded |
| Transfer.OpenWith | crates/meissnerseal-core/src/transfer/envelope.rs:487-529 | The statements of `open_envelope` on the caller's store |
| Authenticity.DeliveredPayloadWasSent | crates/meissnerseal-core/src/transfer/envelope.rs:426-529 | With an ideal AEAD, unforgeable signatures and no hash collision, a delivered payload is the one of a creation by the trusted, approved sender that bound the same profile, sender, recipient, key material, id and expiry |
| Authenticity.CreationSealsAndSigns | crates/meissnerseal-core/src/transfer/envelope.rs:400-485 | The encryption and the signature in a created envelope are the ones that the honesty assumptions speak of |
| Authenticity.IdealWorldExists | crates/meissnerseal-core/src/transfer/envelope.rs:400-485 | The assumptions of the former can be met together with a delivery: every creation has an ideal world in which its recipient accepts it |
| Transfer.LawsAreSatisfiable | crates/meissnerseal-pqc/src/hybrid.rs:111-225 | The assumed laws are consistent |
| ExportBundle.BundleRoundTrip | crates/meissnerseal-core/src/export.rs:240-360 | A written container parses back |
| ExportBundle.AcceptedBundleIsCanonical | crates/meissnerseal-core/src/export.rs:284-360 | An accepted container is the one written for what was read: no trailing bytes, no second encoding |
| ExportBundle.ItemSetRoundTrip | crates/meissnerseal-core/src/export.rs:382-448 | A written item set reads back exactly with at most 4096 items of at most 64 tags each |
| ExportBundle.AcceptedItemSetIsCanonical | crates/meissnerseal-core/src/export.rs:416-448 | An accepted item set is the one written for what was read |
| ExportBundle.ExportAadIsInjective | crates/meissnerseal-core/src/export.rs:232-238 | The associated data determines vault id and version |
| ExportBundle.DecodeItemSet | crates/meissnerseal-core/src/export.rs:416-448 | The item loop over its cursor |
| Migration.MigrationRoundTrip | crates/meissnerseal-core/src/export.rs:61-209 | Exporting one vault and importing into another appends exactly the live items in list order under fresh ids and changes nothing else; it succeeds when there is room and no I/O fails; more than 4096 items are refused with nothing written |
| Migration.MigratedVaultShowsBoth | crates/meissnerseal-core/src/export.rs:125-209 | Afterwards the old ids show what they showed, the new ids show the imported items, and the listing is the old one followed by the new |
| Migration.ImportOutcome | crates/meissnerseal-core/src/export.rs:189-209 | What every import leaves behind: all items; or a tombstone for each item undone; or a prefix of tombstones; and in the failing cases the live slot of an add that failed after its rename |
| Migration.FailedImportWritesNothingExactly | crates/meissnerseal-core/src/export.rs:189-205 | An import that ends in an error wrote nothing exactly when no add had succeeded and the one that failed had not reached its rename |
| Migration.FailedImportWrites | crates/meissnerseal-core/src/export.rs:189-205 | In every vault with room, a first add that succeeds and a second that fails leave the file changed, however well the rollback goes |
| Migration.RollbackRestoresListing | crates/meissnerseal-core/src/export.rs:194-202 | After a reported rollback the listing is as before exactly when the failed add left the file alone; one tombstone per undone add remains |
| Migration.UndisturbedRollback | crates/meissnerseal-core/src/export.rs:194-202 | If no add fails after its rename, a reported rollback leaves the listing as it was, readable or not |
| Migration.ReportsPartialExactly | crates/meissnerseal-core/src/export.rs:194-205 | A partial import is reported exactly when some add and then some delete of the rollback failed |
| Migration.ImportSucceeds | crates/meissnerseal-core/src/export.rs:189-209 | Only an I/O failure of the rollback makes an import partial; without I/O failures readable items are all imported when there is room |
| Migration.ExportSucceedsExactly | crates/meissnerseal-core/src/export.rs:125-147 | When an export succeeds, as an if-and-only-if |
| Migration.ExportedBundleAuthenticates | crates/meissnerseal-core/src/export.rs:61-147 | A bundle opens under its passphrase to exactly the exported live items |
| Migration.AcceptedBundleWasSealed | crates/meissnerseal-core/src/export.rs:61-80 | With an ideal AEAD an accepted bundle holds an item set sealed for the vault id the bundle names, with the nonce it carries and under the key its own parameters give |
| Migration.LiveItemSetIsPrinted | crates/meissnerseal-core/src/export.rs:382-414 | The exported plaintext is the set of live items in list order |
| Migration.WriteLiveItemSet | crates/meissnerseal-core/src/export.rs:382-414 | The loop appending one item per listed summary |
| Migration.RollBack | crates/meissnerseal-core/src/export.rs:197 | Deleting stops at the first failure |
| Migration.Import | crates/meissnerseal-core/src/export.rs:189-209 | The import loop with its rollback; an authentication or format error writes nothing |
| DeviceKeys.SealedKeysOpenExactly | crates/meissnerseal-core/src/keys/device.rs:441-481 | Opening a sealed key file gives back identity and keypair exactly when the identity is valid with a 32-byte Ed25519 key, its X25519 key is that of the keypair and the signing halves match |
| DeviceKeys.OpenedKeysAreCoherent | crates/meissnerseal-core/src/keys/device.rs:460-481 | Whatever bytes are opened, the result is coherent, re-encodes to the bytes in the file and has the fingerprint in the file |
| DeviceKeys.OpenedKeysWereSealed | crates/meissnerseal-core/src/keys/device.rs:460-481 | With an ideal AEAD a key file opens only to a pair that was sealed under that key |
| DeviceKeys.IdentityRoundTrip | crates/meissnerseal-core/src/keys/device.rs:622-690 | Written identity bytes read back exactly for valid identities with a 32-byte Ed25519 key or none; otherwise the matching error |
| DeviceKeys.AcceptedIdentityIsCanonical | crates/meissnerseal-core/src/keys/device.rs:652-690 | Accepted identity bytes are the ones written for what they return |
| DeviceKeys.KeypairRoundTrip | crates/meissnerseal-core/src/keys/device.rs:372-438 | Written keypair bytes read back exactly when the signing key fits and the X25519 halves match |
| DeviceKeys.AcceptedKeypairIsCanonical | crates/meissnerseal-core/src/keys/device.rs:407-438 | Accepted keypair bytes are the ones written for what they return |
| DeviceKeys.KeyFileRoundTrip | crates/meissnerseal-core/src/keys/device.rs:804-860 | The sealed framing parses back |
| DeviceKeys.AcceptedKeyFileIsCanonical | crates/meissnerseal-core/src/keys/device.rs:837-860 | The sealed framing has no second encoding |
| DeviceKeys.KeyFileAadIsInjective | crates/meissnerseal-core/src/keys/device.rs:791-802 | The associated data determines identity bytes and fingerprint |
| DeviceKeys.ParseIdentityBytes | crates/meissnerseal-core/src/keys/device.rs:652-690 | The statements of the identity parser |
| DeviceKeys.ParseKeypairBytes | crates/meissnerseal-core/src/keys/device.rs:407-438 | The statements of the keypair parser |
| DeviceKeys.ParseKeyFileBytes | crates/meissnerseal-core/src/keys/device.rs:837-860 | The statements of the file parser |
| IdentityText.TextRoundTripExactly | crates/meissnerseal-core/src/keys/device.rs:484-570 | The text format gives an identity back, all but its trust state, exactly when the name is not empty, has no newline and does not end in a carriage return, and there is a 32-byte Ed25519 key |
| IdentityText.TextRoundTrip | crates/meissnerseal-core/src/keys/device.rs:484-570 | What reading a written identity gives in every case with a one-line name |
| IdentityText.TextIsCanonicalExactly | crates/meissnerseal-core/src/keys/device.rs:484-570 | An accepted text is the one written for its identity exactly when it has the eight lines in order, bare newlines, lower-case hexadecimal and a plain decimal |
| IdentityText.TwoTextsOneIdentity | crates/meissnerseal-core/src/keys/device.rs:514-570 | Every identity that survives the format and whose device id starts with a zero digit has a second accepted text |
| IdentityText.TextIsNotCanonical | crates/meissnerseal-core/src/keys/device.rs:514-570 | Two texts that differ are accepted as the same identity |
| IdentityText.ParsedTextIsUntrusted | crates/meissnerseal-core/src/keys/device.rs:514-570 | Whatever text is accepted, the identity is valid and untrusted, with an Ed25519 key and a one-line name |
| IdentityText.HexRoundTrip | crates/meissnerseal-core/src/keys/device.rs:862-880 | Every byte string survives hexadecimal |
| IdentityText.HexIsCanonicalExactly | crates/meissnerseal-core/src/keys/device.rs:862-880 | Accepted hexadecimal is the written form of its bytes exactly when every digit is 0-9 or a-f |
| IdentityText.PlusSignIsTaken | crates/meissnerseal-core/src/keys/device.rs:870-880 | A plus sign in front of a digit is read as a zero digit |
| IdentityText.TimestampRoundTrip | crates/meissnerseal-core/src/keys/device.rs:507-552 | Every timestamp survives decimal notation |
| IdentityText.DecimalIsCanonicalExactly | crates/meissnerseal-core/src/keys/device.rs:507-552 | An accepted number is the printed form of its value exactly without a plus sign and without a leading zero |
| IdentityText.Utf8Cut | crates/meissnerseal-core/src/keys/device.rs:527-529 | Cutting valid text at an ASCII byte leaves valid text on both sides |
| IdentityText.EncodeHex | crates/meissnerseal-core/src/keys/device.rs:862-868 | The encoding loop |
| IdentityText.DecodeHex | crates/meissnerseal-core/src/keys/device.rs:870-880 | The decoding loop over pairs |
| IdentityText.ParseIdentityText | crates/meissnerseal-core/src/keys/device.rs:514-570 | The line loop over the optional fields |
| Wire.UnLeOfLe | crates/meissnerseal-core/src/keys/device.rs:915-932 | Little-endian integers read back |
| Wire.ByteParser.TakeSlice | crates/meissnerseal-core/src/keys/device.rs:902-913 | A take advances the offset by exactly what it returns; a failing take leaves it alone |
| Wire.ByteParser.TakeU32Le | crates/meissnerseal-core/src/keys/device.rs:926-928 | A 32-bit read |

## Left out

- Cipher, hash, KDF, X25519, ML-KEM, Ed25519 internals: parameters with the laws above.
- Failures of encryption, hashing and of the random generator: encryption is a total function and draws always succeed; the operations then return an error before anything is written.
- Zeroization, redacted `Debug`, constant-time comparison, typestate and file permissions: no functional content.
- The CLI, pairing, audit, sync server and FFI.
- The cleartext V1 table codec (`serialize_record_table`, `parse_record_table`): not used by the store.
- Error texts, and which error of one kind wins when several apply; the kinds are modelled.
- `usize` is unbounded: `checked_add` on offsets ends in the same format error that the bounds test after it gives.
- The bitmask of seen header tags is a set of tags; appending to a buffer is concatenation; `Vec` capacity is not modelled.
- The expiry-to-`i64` cast of the transcript keeps the bits and is modelled as the unsigned word.
- Durability: a crash is a process that stops; what an unsynced file holds after power loss is not modelled.
- Saving and reloading the replay store: a reload that fails leaves the store in use; what a caller does after such an error is outside the model.
- Hash collisions: theorems that need their absence say so for the two inputs concerned.
- Concurrent mutations of one vault: the last rename wins; each leaves a whole vault, but one change can replace another.
