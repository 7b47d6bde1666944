/** Whole runs of add, update and delete: the bytes on disk are a faithful image of the
    history of committed changes. */
module VaultRuns {
  import opened Wire
  import opened Errors
  import opened SealedTable
  import opened ItemPayload
  import opened VaultIndex
  import opened ItemStore
  import opened Capacity

  // ---- the operations, statement by statement ------------------------------------------------

  /** Stage one record, lay out the new file and hand it to the persistence layer. */
  method Rewrite(env: Env, keys: Keys, disk: Bytes, l: Loaded, position: Option<nat>, record: Record, d: Draws)
    returns (after: Bytes, r: Result<(), CoreError>)
    ensures match MutatedFile(env, keys, l, position, record, d)
            case Err(e) => r == Err(e) && after == disk
            case Ok(file) => (after, r) == Persist(disk, file, d.io)
  {
    hide StageRecords, RewriteBytes;
    after := disk;
    var records := StageRecordsLoop(l, position, Some(record));
    if records.Err? { r := Err(records.error); return; }
    var file := RewriteVault(env, keys.metadata, l, records.value, d.tableNonce);
    if file.Err? { r := Err(file.error); return; }
    var persisted := Persist(disk, file.value, d.io);
    after, r := persisted.0, persisted.1;
  }

  method AddToDisk(env: Env, keys: Keys, disk: Bytes, item: PlainItem, d: Draws)
    returns (after: Bytes, r: Result<Bytes16, CoreError>)
    ensures (after, r) == AddVault(env, keys, disk, item, d)
  {
    hide LoadVault, BuildItemFrame, MutatedFile;
    after := disk;
    var loaded := LoadVaultFile(env, keys.metadata, disk);
    if loaded.Err? { r := Err(loaded.error); return; }
    var l := loaded.value;
    var frame := BuildItemFrame(env.aead, item, keys.itemWrap, l.header, d.recordId, d.revisionId, d);
    if frame.Err? { r := Err(frame.error); return; }
    var written;
    after, written := Rewrite(env, keys, disk, l, None, Record(d.recordId, KIND_ITEM, d.revisionId, frame.value), d);
    r := if written.Ok? then Ok(d.recordId) else Err(written.error);
  }

  method UpdateOnDisk(env: Env, keys: Keys, disk: Bytes, id: Bytes16, item: PlainItem, d: Draws)
    returns (after: Bytes, r: Result<(), CoreError>)
    ensures (after, r) == UpdateVault(env, keys, disk, id, item, d)
  {
    hide LoadVault, BuildItemFrame, MutatedFile;
    after := disk;
    var loaded := LoadVaultFile(env, keys.metadata, disk);
    if loaded.Err? { r := Err(loaded.error); return; }
    var l := loaded.value;
    var position := FindLive(l.entries, id);
    if position.None? { r := Err(NotFound); return; }
    var frame := BuildItemFrame(env.aead, item, keys.itemWrap, l.header, id, d.revisionId, d);
    if frame.Err? { r := Err(frame.error); return; }
    after, r := Rewrite(env, keys, disk, l, position, Record(id, KIND_ITEM, d.revisionId, frame.value), d);
  }

  method DeleteFromDisk(env: Env, keys: Keys, disk: Bytes, id: Bytes16, d: Draws)
    returns (after: Bytes, r: Result<(), CoreError>)
    ensures (after, r) == DeleteVault(env, keys, disk, id, d)
  {
    hide LoadVault, BuildTombstone, MutatedFile, HasTombstone;
    after := disk;
    var loaded := LoadVaultFile(env, keys.metadata, disk);
    if loaded.Err? { r := Err(loaded.error); return; }
    var l := loaded.value;
    var position := FindLive(l.entries, id);
    if position.None? {
      r := if HasTombstone(l.entries, id) then Ok(()) else Err(NotFound);
      return;
    }
    var frame := BuildTombstone(l.header, id, d);
    if frame.Err? { r := Err(frame.error); return; }
    after, r := Rewrite(env, keys, disk, l, position, Record(id, KIND_TOMBSTONE, d.revisionId, frame.value), d);
  }

  method ListDisk(env: Env, keys: Keys, disk: Bytes) returns (r: Result<seq<Summary>, CoreError>)
    ensures r == ListVault(env, keys, disk)
  {
    hide LoadVault, ListFrom;
    var l :- LoadVaultFile(env, keys.metadata, disk);
    r := ListLoop(env.aead, keys.itemWrap, l);
  }

  // ---- the vault file as an object --------------------------------------------------------

  /** The vault behind an unlocked session: one file, mutated only through the store, and
      the abstract vault it represents. */
  class VaultFile {
    const env: Env
    const keys: Keys
    var disk: Bytes
    ghost var slots: seq<Slot>

    ghost predicate Valid()
      reads this
    {
      GoodEnv(env) && Refines(env, keys, disk, slots)
    }

    constructor (env: Env, keys: Keys, disk: Bytes, ghost slots: seq<Slot>)
      requires GoodEnv(env) && Refines(env, keys, disk, slots)
      ensures Valid() && this.disk == disk && this.slots == slots && this.env == env && this.keys == keys
    {
      hide Refines, GoodEnv;
      this.env := env;
      this.keys := keys;
      this.disk := disk;
      this.slots := slots;
    }

    /** `add`: one live slot is appended under the fresh id exactly when the item fits, the table
        has room and the rename ran; otherwise the file is untouched. It reports success exactly
        when the directory sync succeeded too. */
    method Add(item: PlainItem, d: Draws) returns (r: Result<Bytes16, CoreError>)
      requires Valid() && !HasId(slots, d.recordId)
      modifies this
      ensures Valid()
      ensures var fits := Storable(item) && |old(slots)| < CAPACITY;
              && (r.Ok? <==> fits && d.io == Committed)
              && (r.Ok? ==> r.value == d.recordId)
              && (if fits && d.io != NotRenamed then slots == Appended(old(slots), d.recordId, item)
                  else disk == old(disk) && slots == old(slots))
    {
      hide Refines, GoodEnv, AddFile, Storable;
      AddSucceedsExactly(env, keys, disk, slots, item, d);
      var file := AddFile(env, keys, disk, item, d);
      if file.Ok? { AddFileRefines(env, keys, disk, slots, item, d); }
      disk, r := AddToDisk(env, keys, disk, item, d);
      if file.Ok? && d.io != NotRenamed { slots := Appended(slots, d.recordId, item); }
    }

    /** `update`: the item of the live slot is replaced in place exactly when there is one, the
        new item fits and the rename ran; otherwise the file is untouched. An unknown or deleted
        id is not found. */
    method Update(id: Bytes16, item: PlainItem, d: Draws) returns (r: Result<(), CoreError>)
      requires Valid()
      modifies this
      ensures Valid()
      ensures var p := FindSlot(old(slots), id);
              var fits := p.Some? && Storable(item) && |old(slots)| <= CAPACITY;
              && (r.Ok? <==> fits && d.io == Committed)
              && (p.None? ==> r == Err(NotFound))
              && (if fits && d.io != NotRenamed then slots == old(slots)[p.value := Slot(id, Some(item))]
                  else disk == old(disk) && slots == old(slots))
    {
      hide Refines, GoodEnv, UpdateFile, Storable;
      UpdateSucceedsExactly(env, keys, disk, slots, id, item, d);
      var file := UpdateFile(env, keys, disk, id, item, d);
      UpdateFileRefines(env, keys, disk, slots, id, item, d);
      disk, r := UpdateOnDisk(env, keys, disk, id, item, d);
      if file.Ok? && d.io != NotRenamed { slots := slots[FindSlot(slots, id).value := Slot(id, Some(item))]; }
    }

    /** `delete`: the live slot becomes a tombstone exactly when there is one and the rename ran;
        otherwise the file is untouched. Deleting a tombstone succeeds, an unknown id is not
        found. */
    method Delete(id: Bytes16, d: Draws) returns (r: Result<(), CoreError>)
      requires Valid()
      modifies this
      ensures Valid()
      ensures var p := FindSlot(old(slots), id);
              var fits := p.Some? && |old(slots)| <= CAPACITY;
              && (p.None? ==> r == (if Slot(id, None) in old(slots) then Ok(()) else Err(NotFound)))
              && (p.Some? ==> (r.Ok? <==> fits && d.io == Committed))
              && (if fits && d.io != NotRenamed then slots == old(slots)[p.value := Slot(id, None)]
                  else disk == old(disk) && slots == old(slots))
    {
      hide Refines, GoodEnv, DeleteFile;
      DeleteSucceedsExactly(env, keys, disk, slots, id, d);
      var file := DeleteFile(env, keys, disk, id, d);
      DeleteFileRefines(env, keys, disk, slots, id, d);
      if FindSlot(slots, id).Some? { DeleteOfLiveWrites(env, keys, disk, slots, id, d); }
      disk, r := DeleteFromDisk(env, keys, disk, id, d);
      if file.Ok? && file.value.Some? && d.io != NotRenamed {
        slots := slots[FindSlot(slots, id).value := Slot(id, None)];
      }
    }

    /** `list`. */
    method List() returns (r: Result<seq<Summary>, CoreError>)
      requires Valid()
      ensures r == if AllReadable(slots) then Ok(LiveSummaries(slots)) else Err(Format)
    {
      hide Refines, ListVault, AllReadable, LiveSummaries, GoodEnv;
      ListShowsLiveItems(env, keys, disk, slots);
      r := ListDisk(env, keys, disk);
    }
  }

  // ---- runs ---------------------------------------------------------------------------------

  datatype Op =
    | OpAdd(item: PlainItem, d: Draws)
    | OpUpdate(id: Bytes16, item: PlainItem, d: Draws)
    | OpDelete(id: Bytes16, d: Draws)

  /** A change that reached the disk. */
  datatype Event = Added(id: Bytes16, item: PlainItem) | Updated(id: Bytes16, item: PlainItem) | Deleted(id: Bytes16)

  /** The bytes after one operation, and the change it committed, if any. */
  function Step(env: Env, keys: Keys, disk: Bytes, op: Op): (Bytes, seq<Event>) {
    match op
    case OpAdd(item, d) =>
      (AddVault(env, keys, disk, item, d).0,
       if AddFile(env, keys, disk, item, d).Ok? && d.io != NotRenamed then [Added(d.recordId, item)] else [])
    case OpUpdate(id, item, d) =>
      (UpdateVault(env, keys, disk, id, item, d).0,
       if UpdateFile(env, keys, disk, id, item, d).Ok? && d.io != NotRenamed then [Updated(id, item)] else [])
    case OpDelete(id, d) =>
      (DeleteVault(env, keys, disk, id, d).0,
       var f := DeleteFile(env, keys, disk, id, d);
       if f.Ok? && f.value.Some? && d.io != NotRenamed then [Deleted(id)] else [])
  }

  function Run(env: Env, keys: Keys, disk: Bytes, ops: seq<Op>): (Bytes, seq<Event>) {
    if ops == [] then (disk, [])
    else
      var n := |ops| - 1;
      var (before, events) := Run(env, keys, disk, ops[..n]);
      var (after, more) := Step(env, keys, before, ops[n]);
      (after, events + more)
  }

  /** `fresh_id` draws ids that never collide with an id added before. */
  predicate FreshDraws(ops: seq<Op>) {
    forall i, j :: 0 <= i < j < |ops| && ops[i].OpAdd? && ops[j].OpAdd? ==> ops[i].d.recordId != ops[j].d.recordId
  }

  // ---- reading a history ----------------------------------------------------------------------

  /** The ids added, in order. */
  function AddedIds(events: seq<Event>): seq<Bytes16> {
    if events == [] then []
    else
      var n := |events| - 1;
      AddedIds(events[..n]) + (if events[n].Added? then [events[n].id] else [])
  }

  /** The last thing that happened to an id: written with an item, or deleted. */
  function LastWrite(events: seq<Event>, id: Bytes16): Option<Option<PlainItem>> {
    if events == [] then None
    else
      var n := |events| - 1;
      if events[n].id == id then Some(if events[n].Deleted? then None else Some(events[n].item))
      else LastWrite(events[..n], id)
  }

  predicate IsLive(events: seq<Event>, id: Bytes16) {
    LastWrite(events, id).Some? && LastWrite(events, id).value.Some?
  }

  /** Adds use new ids; updates and deletes hit live ids. */
  predicate GoodHistory(events: seq<Event>) {
    forall k :: 0 <= k < |events| ==>
      if events[k].Added? then LastWrite(events[..k], events[k].id).None? else IsLive(events[..k], events[k].id)
  }

  /** Slots in order of addition, each with the last thing written to its id. */
  function SlotsOf(events: seq<Event>): (slots: seq<Slot>)
    ensures |slots| == |AddedIds(events)|
  {
    var ids := AddedIds(events);
    seq(|ids|, i requires 0 <= i < |ids| =>
      var w := LastWrite(events, ids[i]);
      Slot(ids[i], if w.Some? then w.value else None))
  }

  // ---- a good history, one event at a time -----------------------------------------------------

  lemma {:induction false} MentionedIdsWereAdded(events: seq<Event>, id: Bytes16)
    requires GoodHistory(events)
    ensures LastWrite(events, id).Some? <==> id in AddedIds(events)
  {
    if events != [] {
      var n := |events| - 1;
      PrefixIsGood(events, n);
      MentionedIdsWereAdded(events[..n], id);
      MentionedIdsWereAdded(events[..n], events[n].id);
    }
  }

  lemma PrefixIsGood(events: seq<Event>, n: nat)
    requires GoodHistory(events) && n <= |events|
    ensures GoodHistory(events[..n])
  {
    forall k | 0 <= k < n
      ensures if events[..n][k].Added? then LastWrite(events[..n][..k], events[k].id).None?
              else IsLive(events[..n][..k], events[k].id)
    {
      assert events[..n][..k] == events[..k];
    }
  }

  lemma {:induction false} AddedIdsAreDistinct(events: seq<Event>)
    requires GoodHistory(events)
    ensures forall i, j :: 0 <= i < j < |AddedIds(events)| ==> AddedIds(events)[i] != AddedIds(events)[j]
  {
    if events != [] {
      var n := |events| - 1;
      PrefixIsGood(events, n);
      AddedIdsAreDistinct(events[..n]);
      MentionedIdsWereAdded(events[..n], events[n].id);
    }
  }

  lemma {:induction false} FindSlotByIndex(slots: seq<Slot>, p: nat)
    requires DistinctSlots(slots) && p < |slots|
    ensures FindSlot(slots, slots[p].id) == if slots[p].item.Some? then Some(p) else None
    decreases |slots|
  {
    if p > 0 {
      assert slots[0].id != slots[p].id;
      assert DistinctSlots(slots[1..]);
      FindSlotByIndex(slots[1..], p - 1);
    } else {
      NotFoundWithoutId(slots[1..], slots[0].id);
    }
  }

  lemma {:induction false} NotFoundWithoutId(slots: seq<Slot>, id: Bytes16)
    requires forall i :: 0 <= i < |slots| ==> slots[i].id != id
    ensures FindSlot(slots, id) == None
  {
    if slots != [] { NotFoundWithoutId(slots[1..], id); }
  }

  /** In the slots of a good history every id finds exactly the last thing written to it. */
  lemma HistoryLookup(events: seq<Event>, id: Bytes16)
    requires GoodHistory(events)
    ensures DistinctSlots(SlotsOf(events))
    ensures HasId(SlotsOf(events), id) <==> LastWrite(events, id).Some?
    ensures FindSlot(SlotsOf(events), id).Some? <==> IsLive(events, id)
    ensures FindSlot(SlotsOf(events), id).Some? ==>
              SlotsOf(events)[FindSlot(SlotsOf(events), id).value] == Slot(id, LastWrite(events, id).value)
    ensures Slot(id, None) in SlotsOf(events) <==> LastWrite(events, id) == Some(None)
  {
    var ids, slots := AddedIds(events), SlotsOf(events);
    AddedIdsAreDistinct(events);
    MentionedIdsWereAdded(events, id);
    assert forall i :: 0 <= i < |slots| ==> slots[i].id == ids[i];
    if id in ids {
      var p :| 0 <= p < |ids| && ids[p] == id;
      FindSlotByIndex(slots, p);
      assert slots[p] in slots;
    } else {
      NotFoundWithoutId(slots, id);
    }
  }

  /** Appending an add, an update or a delete to a history is the matching change of slots. */
  lemma HistoryStep(events: seq<Event>, e: Event)
    requires GoodHistory(events + [e])
    ensures GoodHistory(events)
    ensures SlotsOf(events + [e]) == Changed(SlotsOf(events), e)
  {
    var all := events + [e];
    assert all[..|events|] == events;
    PrefixIsGood(all, |events|);
    HistoryLookup(events, e.id);
    var ids := AddedIds(events);
    AddedIdsAreDistinct(events);
    assert all[|events|] == e;
    forall i | 0 <= i < |ids| ensures ids[i] != e.id ==> LastWrite(all, ids[i]) == LastWrite(events, ids[i]) {}
    MentionedIdsWereAdded(events, e.id);
    if e.Added? {
      assert SlotsOf(all) == Appended(SlotsOf(events), e.id, e.item);
    } else {
      var p := FindSlot(SlotsOf(events), e.id).value;
      assert ids[p] == e.id;
    }
  }

  // ---- the main theorem ------------------------------------------------------------------------

  lemma GoodHistoryExtends(events: seq<Event>, e: Event)
    requires GoodHistory(events)
    requires if e.Added? then LastWrite(events, e.id).None? else IsLive(events, e.id)
    ensures GoodHistory(events + [e])
  {
    var all := events + [e];
    forall k | 0 <= k < |all|
      ensures if all[k].Added? then LastWrite(all[..k], all[k].id).None? else IsLive(all[..k], all[k].id)
    {
      assert all[..k] == events[..k];
      if k == |events| { assert events[..k] == events; }
    }
  }

  /** One operation on a file that images a history. */
  lemma StepRefines(env: Env, keys: Keys, disk: Bytes, events: seq<Event>, op: Op)
    requires GoodEnv(env) && GoodHistory(events) && Refines(env, keys, disk, SlotsOf(events))
    requires op.OpAdd? ==> LastWrite(events, op.d.recordId).None?
    ensures var (after, more) := Step(env, keys, disk, op);
            && GoodHistory(events + more) && Refines(env, keys, after, SlotsOf(events + more))
            && (forall e :: e in more && e.Added? ==> op.OpAdd? && e.id == op.d.recordId)
  {
    hide Step, GoodEnv, Refines, GoodHistory, SlotsOf;
    var more := Step(env, keys, disk, op).1;
    HistoryLookup(events, if op.OpAdd? then op.d.recordId else op.id);
    StepOnSlots(env, keys, disk, SlotsOf(events), op);
    if more == [] {
      assert events + more == events;
    } else {
      GoodHistoryExtends(events, more[0]);
      HistoryStep(events, more[0]);
    }
  }

  /** The slots after one change. */
  function Changed(slots: seq<Slot>, e: Event): seq<Slot> {
    if e.Added? then Appended(slots, e.id, e.item)
    else
      var p := FindSlot(slots, e.id);
      if p.None? then slots else slots[p.value := Slot(e.id, if e.Deleted? then None else Some(e.item))]
  }

  /** One operation on a file that represents some slots commits at most one change. */
  lemma StepOnSlots(env: Env, keys: Keys, disk: Bytes, slots: seq<Slot>, op: Op)
    requires GoodEnv(env) && Refines(env, keys, disk, slots) && (op.OpAdd? ==> !HasId(slots, op.d.recordId))
    ensures var (after, more) := Step(env, keys, disk, op);
            if more == [] then Refines(env, keys, after, slots)
            else
              && more == [more[0]] && Refines(env, keys, after, Changed(slots, more[0]))
              && more[0].id == (if op.OpAdd? then op.d.recordId else op.id)
              && (more[0].Added? <==> op.OpAdd?)
              && (!op.OpAdd? ==> FindSlot(slots, op.id).Some?)
  {
    hide AddFile, UpdateFile, DeleteFile, GoodEnv, Refines;
    match op {
      case OpAdd(item, d) =>
        if AddFile(env, keys, disk, item, d).Ok? { AddFileRefines(env, keys, disk, slots, item, d); }
      case OpUpdate(id, item, d) => UpdateFileRefines(env, keys, disk, slots, id, item, d);
      case OpDelete(id, d) => DeleteFileRefines(env, keys, disk, slots, id, d);
    }
  }

  lemma {:induction false} AddedIdsComeFromAdds(env: Env, keys: Keys, disk: Bytes, ops: seq<Op>, id: Bytes16)
    requires forall i :: 0 <= i < |ops| && ops[i].OpAdd? ==> ops[i].d.recordId != id
    ensures id !in AddedIds(Run(env, keys, disk, ops).1)
  {
    hide Step, AddedIds;
    if ops == [] {
      NothingAdded();
    } else {
      var n := |ops| - 1;
      var (before, events) := Run(env, keys, disk, ops[..n]);
      var more := Step(env, keys, before, ops[n]).1;
      AddedIdsComeFromAdds(env, keys, disk, ops[..n], id);
      StepEvents(env, keys, before, ops[n]);
      AddedIdsExtend(events, more);
    }
  }

  lemma NothingAdded()
    ensures AddedIds([]) == []
  {}

  lemma AddedIdsExtend(events: seq<Event>, more: seq<Event>)
    requires |more| <= 1
    ensures AddedIds(events + more) == AddedIds(events) + (if more != [] && more[0].Added? then [more[0].id] else [])
  {
    if more == [] {
      assert events + more == events;
    } else {
      assert (events + more)[..|events|] == events;
    }
  }

  lemma StepEvents(env: Env, keys: Keys, disk: Bytes, op: Op)
    ensures var more := Step(env, keys, disk, op).1;
            |more| <= 1 && forall e :: e in more && e.Added? ==> op.OpAdd? && e.id == op.d.recordId
  {
    hide AddVault, UpdateVault, DeleteVault, AddFile, UpdateFile, DeleteFile;
  }

  /** Over every run of operations from a fresh vault, the bytes on disk refine the slots of
      the run's history. */
  lemma {:induction false} RunRefinesHistory(env: Env, keys: Keys, disk: Bytes, ops: seq<Op>)
    requires GoodEnv(env) && Refines(env, keys, disk, []) && FreshDraws(ops)
    ensures var (after, events) := Run(env, keys, disk, ops);
            GoodHistory(events) && Refines(env, keys, after, SlotsOf(events))
  {
    hide Refines, GoodEnv, Step;
    if ops == [] {
      assert SlotsOf([]) == [];
    } else {
      var n := |ops| - 1;
      RunRefinesHistory(env, keys, disk, ops[..n]);
      var (before, events) := Run(env, keys, disk, ops[..n]);
      if ops[n].OpAdd? {
        AddedIdsComeFromAdds(env, keys, disk, ops[..n], ops[n].d.recordId);
        MentionedIdsWereAdded(events, ops[n].d.recordId);
      }
      StepRefines(env, keys, before, events, ops[n]);
    }
  }

  /** What a reader sees after any run from a fresh vault, in terms of the history alone:
      the table holds one entry per successful add, in that order; `with_item` shows the last
      thing written to an id and finds neither unknown nor deleted ids; `list` shows the live
      items in insertion order unless one of them exceeds the reader's ceilings. */
  lemma VaultShowsItsHistory(env: Env, keys: Keys, disk: Bytes, ops: seq<Op>, id: Bytes16)
    requires GoodEnv(env) && Refines(env, keys, disk, []) && FreshDraws(ops)
    ensures var (after, events) := Run(env, keys, disk, ops);
            var table := LoadVault(env, keys.metadata, after);
            && table.Ok?
            && |table.value.entries| == |AddedIds(events)|
            && (forall i :: 0 <= i < |AddedIds(events)| ==> table.value.entries[i].recordId == AddedIds(events)[i])
            && WithItem(env, keys, after, id) ==
                 (if !IsLive(events, id) then Err(NotFound)
                  else
                    var item := LastWrite(events, id).value.value;
                    if Within(item, STORE_LIMITS) then Ok(item) else Err(Format))
            && ListVault(env, keys, after) ==
                 (if AllReadable(SlotsOf(events)) then Ok(LiveSummaries(SlotsOf(events))) else Err(Format))
  {
    hide Step, GoodEnv, LoadVault, WithItem, ListVault, AllReadable, LiveSummaries, WellFormed, Within;
    RunRefinesHistory(env, keys, disk, ops);
    var (after, events) := Run(env, keys, disk, ops);
    WithItemShowsSlot(env, keys, after, SlotsOf(events), id);
    ListShowsLiveItems(env, keys, after, SlotsOf(events));
    HistoryLookup(events, id);
    EntryIds(env, keys, after, SlotsOf(events));
  }

  lemma EntryIds(env: Env, keys: Keys, disk: Bytes, slots: seq<Slot>)
    requires Refines(env, keys, disk, slots)
    ensures var es := LoadVault(env, keys.metadata, disk).value.entries;
            |es| == |slots| && forall i :: 0 <= i < |slots| ==> es[i].recordId == slots[i].id
  {
    hide LoadVault, WellFormed;
    var l := LoadVault(env, keys.metadata, disk).value;
    forall i | 0 <= i < |slots| ensures l.entries[i].recordId == slots[i].id {
      assert Holds(env.aead, keys.itemWrap, l.header, KeptRecords(l)[i], slots[i]);
    }
  }

  /** A deleted id never becomes live again. */
  lemma {:induction false} DeletedStaysDeleted(events: seq<Event>, k: nat)
    requires GoodHistory(events) && k < |events| && events[k].Deleted?
    ensures LastWrite(events, events[k].id) == Some(None)
  {
    hide GoodHistory;
    var n := |events| - 1;
    if k < n {
      PrefixIsGood(events, n);
      LastIsGood(events);
      DeletedStaysDeleted(events[..n], k);
    }
  }

  lemma LastIsGood(events: seq<Event>)
    requires GoodHistory(events) && events != []
    ensures var n := |events| - 1;
            if events[n].Added? then LastWrite(events[..n], events[n].id).None? else IsLive(events[..n], events[n].id)
  {}

  /** Deleting an id twice succeeds the second time and writes nothing. */
  lemma DeleteIsIdempotent(env: Env, keys: Keys, disk: Bytes, slots: seq<Slot>, id: Bytes16, d: Draws, d2: Draws)
    requires GoodEnv(env) && Refines(env, keys, disk, slots)
    requires DeleteVault(env, keys, disk, id, d).1.Ok?
    ensures var once := DeleteVault(env, keys, disk, id, d).0;
            DeleteVault(env, keys, once, id, d2) == (once, Ok(()))
  {
    hide DeleteFile, GoodEnv, Refines;
    DeleteFileRefines(env, keys, disk, slots, id, d);
    var f := DeleteFile(env, keys, disk, id, d);
    var p := FindSlot(slots, id);
    if f.value.Some? {
      var after := slots[p.value := Slot(id, None)];
      RefinedSlotsAreDistinct(env, keys, disk, slots);
      assert DistinctSlots(after);
      FindSlotByIndex(after, p.value);
      assert after[p.value] in after;
      DeleteFileRefines(env, keys, f.value.value, after, id, d2);
    } else {
      if p.Some? { DeleteOfLiveWrites(env, keys, disk, slots, id, d); }
      DeleteFileRefines(env, keys, disk, slots, id, d2);
    }
  }

  lemma DeleteOfLiveWrites(env: Env, keys: Keys, disk: Bytes, slots: seq<Slot>, id: Bytes16, d: Draws)
    requires Refines(env, keys, disk, slots) && FindSlot(slots, id).Some?
    ensures DeleteFile(env, keys, disk, id, d) != Ok(None)
  {
    hide LoadVault, MutatedFile, WellFormed, AllHold;
    LivePositionsAgree(env, keys, disk, slots, id);
  }
}
