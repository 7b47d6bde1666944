/** Persistence and the item store together: what a vault path holds when any number of
    mutations of it are interleaved, interrupted or killed, each loading the file when its
    turn comes. */
module CrashSafety {
  import opened Wire
  import opened Errors
  import opened Crypto
  import opened ItemPayload
  import opened VaultIndex
  import opened ItemStore
  import opened VaultRuns
  import opened VaultSession
  import P = Persistence
  import FrameExtents

  /** The operation with its own write going through. */
  function Committing(op: Op): Op {
    match op
    case OpAdd(item, d) => OpAdd(item, d.(io := Committed))
    case OpUpdate(id, item, d) => OpUpdate(id, item, d.(io := Committed))
    case OpDelete(id, d) => OpDelete(id, d.(io := Committed))
  }

  /** The directory and its processes; the history that the file at the path shows; and for each
      mutator that has loaded, the history that the bytes it is going to persist would show. */
  datatype Sys = Sys(fs: P.Fs, shown: seq<Event>, loaded: seq<Option<seq<Event>>>)

  /** A mutator reads the path and computes its bytes, or a process does its next I/O call. */
  datatype Move = Load(proc: nat) | Io(proc: nat, choice: P.Choice)

  /** Each process has its operation; creators ignore theirs. */
  predicate Shaped(s: Sys, ops: seq<Op>) { |s.fs.procs| == |ops| == |s.loaded| }

  /** `load_vault` and everything up to the call of the persistence layer. An operation that has
      nothing to write ends here. */
  function LoadMove(env: Env, keys: Keys, s: Sys, ops: seq<Op>, i: nat): (t: Sys)
    requires Shaped(s, ops) && i < |ops|
    ensures Shaped(t, ops)
  {
    var p := s.fs.procs[i];
    if p.creator || p.pc != P.Start || s.loaded[i].Some? || P.Target !in s.fs.files then s
    else
      var (after, more) := Step(env, keys, s.fs.files[P.Target].data, Committing(ops[i]));
      if more == [] then s
      else Sys(s.fs.(procs := s.fs.procs[i := p.(bytes := after)]), s.shown, s.loaded[i := Some(s.shown + more)])
  }

  /** One I/O call of a creator, or of a mutator that has loaded. */
  function IoMove(s: Sys, ops: seq<Op>, i: nat, c: P.Choice): (t: Sys)
    requires Shaped(s, ops) && i < |ops|
    ensures Shaped(t, ops)
  {
    var p := s.fs.procs[i];
    if !p.creator && s.loaded[i].None? then s
    else
      var after := P.Step(s.fs, i, c);
      var renamed := p.pc == P.Synced && after.procs[i].pc == P.Renamed;
      Sys(after, if renamed && s.loaded[i].Some? then s.loaded[i].value else s.shown, s.loaded)
  }

  function SysRun(env: Env, keys: Keys, s: Sys, ops: seq<Op>, moves: seq<Move>): (t: Sys)
    requires Shaped(s, ops)
    ensures Shaped(t, ops)
    decreases |moves|
  {
    if moves == [] then s
    else
      var n := |moves| - 1;
      var before := SysRun(env, keys, s, ops, moves[..n]);
      if moves[n].proc >= |ops| then before
      else
        match moves[n]
        case Load(i) => LoadMove(env, keys, before, ops, i)
        case Io(i, c) => IoMove(before, ops, i, c)
  }

  /** The ids that the adds draw are new to the vault and to each other. */
  predicate FreshOps(events: seq<Event>, ops: seq<Op>) {
    && (forall i :: 0 <= i < |ops| && ops[i].OpAdd? ==> LastWrite(events, ops[i].d.recordId).None?)
    && (forall i, j :: 0 <= i < j < |ops| && ops[i].OpAdd? && ops[j].OpAdd? ==>
          ops[i].d.recordId != ops[j].d.recordId)
  }

  /** A vault that a history describes is at the path, and nobody has moved yet. */
  ghost predicate Opening(env: Env, keys: Keys, s: Sys, events: seq<Event>, ops: seq<Op>) {
    && GoodEnv(env) && Shaped(s, ops) && P.Fresh(s.fs) && P.Target in s.fs.files
    && s.shown == events && (forall i :: 0 <= i < |ops| ==> s.loaded[i].None?)
    && GoodHistory(events) && Refines(env, keys, s.fs.files[P.Target].data, SlotsOf(events)) && FreshOps(events, ops)
  }

  // ---- the processes and their files -----------------------------------------------------------

  /** Nobody holds a claim, and every temporary file is its process's own. */
  predicate Files(fs: P.Fs) {
    && P.DistinctSeeds(fs) && P.Target in fs.files
    && forall i :: 0 <= i < |fs.procs| ==> P.TmpOk(fs, i) && P.FlagOk(fs.procs[i]) && !fs.procs[i].claimed
  }

  lemma FreshFiles(fs: P.Fs)
    requires P.Fresh(fs) && P.Target in fs.files
    ensures Files(fs)
  {}

  lemma LoadKeepsFiles(fs: P.Fs, i: nat, bytes: Bytes)
    requires Files(fs) && i < |fs.procs| && fs.procs[i].pc == P.Start
    ensures Files(fs.(procs := fs.procs[i := fs.procs[i].(bytes := bytes)]))
  {
    var after := fs.(procs := fs.procs[i := fs.procs[i].(bytes := bytes)]);
    forall j | 0 <= j < |after.procs| ensures P.TmpOk(after, j) && P.FlagOk(after.procs[j]) && !after.procs[j].claimed {
      assert P.TmpOk(fs, j) && P.FlagOk(fs.procs[j]) && !fs.procs[j].claimed;
    }
    forall j, k | 0 <= j < k < |after.procs| ensures after.procs[j].seed != after.procs[k].seed {
      assert fs.procs[j].seed != fs.procs[k].seed;
    }
  }

  lemma StepKeepsFiles(fs: P.Fs, i: nat, c: P.Choice)
    requires Files(fs) && i < |fs.procs|
    ensures Files(P.Step(fs, i, c))
  {
    hide P.Step, P.TmpOk, P.FlagOk;
    var after := P.Step(fs, i, c);
    P.StepProcs(fs, i, c);
    P.StepOwnTmp(fs, i, c);
    P.StepUnclaimed(fs, i, c);
    forall j | 0 <= j < |after.procs| ensures P.TmpOk(after, j) && P.FlagOk(after.procs[j]) && !after.procs[j].claimed {
      if j != i {
        P.DistinctAt(fs, i, j);
        P.StepOtherTmp(fs, i, c, j);
      }
    }
    P.StepKeepsSeeds(fs, i, c);
  }

  // ---- the contents ---------------------------------------------------------------------------------

  /** An event is the one that an operation makes. */
  predicate IsEventOf(e: Event, op: Op) {
    match op
    case OpAdd(item, d) => e == Added(d.recordId, item)
    case OpUpdate(id, item, _) => e == Updated(id, item)
    case OpDelete(id, _) => e == Deleted(id)
  }

  /** A history that continues the first one with events of the operations, and leaves the ids
      of those that have not loaded unused. */
  predicate Continues(h: seq<Event>, events: seq<Event>, ops: seq<Op>, loaded: seq<Option<seq<Event>>>) {
    && GoodHistory(h) && events <= h
    && (forall e :: e in h[|events|..] ==> exists op :: op in ops && IsEventOf(e, op))
    && (forall i :: 0 <= i < |ops| && i < |loaded| && ops[i].OpAdd? && loaded[i].None? ==>
          LastWrite(h, ops[i].d.recordId).None?)
  }

  /** Bytes that show a history, under the root they had at first. */
  ghost predicate Shows(env: Env, keys: Keys, disk: Bytes, bytes: Bytes, h: seq<Event>) {
    && Refines(env, keys, bytes, SlotsOf(h)) && LoadVault(env, keys.metadata, disk).Ok?
    && var l, m := LoadVault(env, keys.metadata, disk).value, LoadVault(env, keys.metadata, bytes).value;
       WellFormed(l) && WellFormed(m) && SameRoot(l, m)
  }

  /** What the path shows, and what each loaded mutator is going to show, are such histories. */
  ghost predicate Contents(env: Env, keys: Keys, disk: Bytes, s: Sys, events: seq<Event>, ops: seq<Op>) {
    && Shaped(s, ops) && P.Target in s.fs.files
    && Continues(s.shown, events, ops, s.loaded)
    && Shows(env, keys, disk, s.fs.files[P.Target].data, s.shown)
    && forall i :: 0 <= i < |ops| && s.loaded[i].Some? ==>
         && Continues(s.loaded[i].value, events, ops, s.loaded)
         && Shows(env, keys, disk, s.fs.procs[i].bytes, s.loaded[i].value)
  }

  lemma CommittingKeepsOp(op: Op)
    ensures Committing(op).OpAdd? == op.OpAdd? && Committing(op).d.recordId == op.d.recordId
    ensures forall e :: IsEventOf(e, Committing(op)) <==> IsEventOf(e, op)
  {}

  lemma StepMakesItsEvent(env: Env, keys: Keys, disk: Bytes, op: Op)
    ensures var more := Step(env, keys, disk, op).1; more == [] || (|more| == 1 && IsEventOf(more[0], op))
  {
    hide AddVault, UpdateVault, DeleteVault, AddFile, UpdateFile, DeleteFile;
  }

  /** Continuing a history by one event of an operation that now loads. */
  lemma ContinueBy(h: seq<Event>, e: Event, events: seq<Event>, ops: seq<Op>, loaded: seq<Option<seq<Event>>>, i: nat,
                   mine: seq<Event>)
    requires Continues(h, events, ops, loaded) && FreshOps(events, ops) && i < |ops| == |loaded|
    requires GoodHistory(h + [e]) && IsEventOf(e, ops[i])
    ensures Continues(h + [e], events, ops, loaded[i := Some(mine)])
  {
    hide GoodHistory, IsEventOf;
    var all := h + [e];
    assert all[|events|..] == h[|events|..] + [e];
    assert ops[i] in ops;
    EventIsUsed(h, e);
    forall k | 0 <= k < |ops| && ops[k].OpAdd? && loaded[i := Some(mine)][k].None?
      ensures LastWrite(all, ops[k].d.recordId).None?
    {
      OtherIdStaysFree(h, e, ops, i, k);
    }
  }

  lemma EventIsUsed(h: seq<Event>, e: Event)
    requires GoodHistory(h + [e])
    ensures e.Added? || IsLive(h, e.id)
  {
    assert (h + [e])[..|h|] == h && (h + [e])[|h|] == e;
  }

  lemma OtherIdStaysFree(h: seq<Event>, e: Event, ops: seq<Op>, i: nat, k: nat)
    requires i < |ops| && k < |ops| && i != k && ops[k].OpAdd? && LastWrite(h, ops[k].d.recordId).None?
    requires IsEventOf(e, ops[i]) && (e.Added? || IsLive(h, e.id))
    requires ops[i].OpAdd? ==> ops[i].d.recordId != ops[k].d.recordId
    ensures LastWrite(h + [e], ops[k].d.recordId).None?
  {
    assert (h + [e])[..|h|] == h;
  }

  /** More processes having loaded only weakens what a history must leave unused. */
  lemma StillContinues(h: seq<Event>, events: seq<Event>, ops: seq<Op>, loaded: seq<Option<seq<Event>>>, i: nat,
                       mine: seq<Event>)
    requires Continues(h, events, ops, loaded) && i < |loaded|
    ensures Continues(h, events, ops, loaded[i := Some(mine)])
  {
    hide GoodHistory, IsEventOf;
  }

  /** The bytes an operation computes from bytes that show a history show it with its event. */
  lemma StepShows(env: Env, keys: Keys, disk: Bytes, bytes: Bytes, h: seq<Event>, op: Op)
    requires GoodEnv(env) && GoodHistory(h) && Shows(env, keys, disk, bytes, h)
    requires op.OpAdd? ==> LastWrite(h, op.d.recordId).None?
    ensures var (after, more) := Step(env, keys, bytes, op);
            GoodHistory(h + more) && Shows(env, keys, disk, after, h + more)
  {
    hide Lawful, FrameExtents.SortsByStart, SlotsOf, Step, GoodHistory, LoadVault, WellFormed, AllHold, WrkFrame;
    StepRefines(env, keys, bytes, h, op);
    StepKeepsRoot(env, keys, bytes, op);
  }

  lemma OpeningContents(env: Env, keys: Keys, s: Sys, events: seq<Event>, ops: seq<Op>)
    requires Opening(env, keys, s, events, ops)
    ensures Contents(env, keys, s.fs.files[P.Target].data, s, events, ops)
  {
    hide LoadVault, WellFormed, GoodHistory, SlotsOf, P.Fresh, GoodEnv, AllHold;
    assert events[|events|..] == [];
  }

  lemma LoadKeepsContents(env: Env, keys: Keys, disk: Bytes, s: Sys, events: seq<Event>, ops: seq<Op>, i: nat)
    requires GoodEnv(env) && FreshOps(events, ops) && Contents(env, keys, disk, s, events, ops) && i < |ops|
    ensures Contents(env, keys, disk, LoadMove(env, keys, s, ops, i), events, ops)
  {
    hide GoodEnv, Step, Shows, Continues, FreshOps;
    var t := LoadMove(env, keys, s, ops, i);
    if t != s {
      var op := Committing(ops[i]);
      var target := s.fs.files[P.Target].data;
      var (after, more) := Step(env, keys, target, op);
      CommittingKeepsOp(ops[i]);
      ContinuesIsGood(s.shown, events, ops, s.loaded, i);
      StepShows(env, keys, disk, target, s.shown, op);
      StepMakesItsEvent(env, keys, target, op);
      assert more == [more[0]];
      ContinueBy(s.shown, more[0], events, ops, s.loaded, i, s.shown + more);
      StillContinues(s.shown, events, ops, s.loaded, i, s.shown + more);
      forall j | 0 <= j < |ops| && t.loaded[j].Some?
        ensures Continues(t.loaded[j].value, events, ops, t.loaded)
             && Shows(env, keys, disk, t.fs.procs[j].bytes, t.loaded[j].value)
      {
        if j != i { StillContinues(s.loaded[j].value, events, ops, s.loaded, i, s.shown + more); }
      }
    }
  }

  lemma ContinuesIsGood(h: seq<Event>, events: seq<Event>, ops: seq<Op>, loaded: seq<Option<seq<Event>>>, i: nat)
    requires Continues(h, events, ops, loaded) && i < |ops| == |loaded| && loaded[i].None?
    ensures GoodHistory(h) && (ops[i].OpAdd? ==> LastWrite(h, ops[i].d.recordId).None?)
  {}

  lemma IoKeepsContents(env: Env, keys: Keys, disk: Bytes, s: Sys, events: seq<Event>, ops: seq<Op>, i: nat,
                        c: P.Choice)
    requires Contents(env, keys, disk, s, events, ops) && Files(s.fs) && i < |ops|
    ensures Contents(env, keys, disk, IoMove(s, ops, i, c), events, ops)
  {
    hide P.Step, P.TmpOk, P.FlagOk, Shows, Continues;
    P.StepUnclaimed(s.fs, i, c);
    P.StepProcs(s.fs, i, c);
    var t := IoMove(s, ops, i, c);
    forall j | 0 <= j < |ops| ensures t.fs.procs[j].bytes == s.fs.procs[j].bytes {
      if j == i { P.SameButMoved(s.fs.procs[i], P.Step(s.fs, i, c).procs[i]); }
    }
  }

  // ---- the main theorem -----------------------------------------------------------------------------

  lemma {:induction false} SysInvariant(env: Env, keys: Keys, s: Sys, events: seq<Event>, ops: seq<Op>,
                                        moves: seq<Move>)
    requires Opening(env, keys, s, events, ops)
    ensures var t := SysRun(env, keys, s, ops, moves);
            Files(t.fs) && Contents(env, keys, s.fs.files[P.Target].data, t, events, ops)
    decreases |moves|
  {
    hide Files, Contents, LoadMove, IoMove, GoodEnv, FreshOps, Refines, GoodHistory;
    var disk := s.fs.files[P.Target].data;
    if moves == [] {
      FreshFiles(s.fs);
      OpeningContents(env, keys, s, events, ops);
    } else {
      var n := |moves| - 1;
      SysInvariant(env, keys, s, events, ops, moves[..n]);
      var before := SysRun(env, keys, s, ops, moves[..n]);
      var i := moves[n].proc;
      if i < |ops| {
        match moves[n] {
          case Load(_) =>
            LoadKeepsContents(env, keys, disk, before, events, ops, i);
            LoadMoveKeepsFiles(env, keys, before, ops, i);
          case Io(_, c) =>
            IoKeepsContents(env, keys, disk, before, events, ops, i, c);
            IoMoveKeepsFiles(before, ops, i, c);
        }
      }
    }
  }

  lemma LoadMoveKeepsFiles(env: Env, keys: Keys, s: Sys, ops: seq<Op>, i: nat)
    requires Shaped(s, ops) && i < |ops| && Files(s.fs)
    ensures Files(LoadMove(env, keys, s, ops, i).fs)
  {
    hide Files, Step;
    var t := LoadMove(env, keys, s, ops, i);
    if t != s { LoadKeepsFiles(s.fs, i, t.fs.procs[i].bytes); }
  }

  lemma IoMoveKeepsFiles(s: Sys, ops: seq<Op>, i: nat, c: P.Choice)
    requires Shaped(s, ops) && i < |ops| && Files(s.fs)
    ensures Files(IoMove(s, ops, i, c).fs)
  {
    hide Files, P.Step;
    StepKeepsFiles(s.fs, i, c);
  }

  /** Wherever mutations, each loading the path when its turn comes, and attempts to create over the
      vault are interleaved or killed, the path holds a file that loads and shows a good history:
      the one it had at first, continued by events of the operations. No mixture and no torn
      file is ever visible. */
  lemma CrashLeavesAVault(env: Env, keys: Keys, s: Sys, events: seq<Event>, ops: seq<Op>, moves: seq<Move>)
    requires Opening(env, keys, s, events, ops)
    ensures var t := SysRun(env, keys, s, ops, moves);
            && P.Target in t.fs.files
            && events <= t.shown && GoodHistory(t.shown)
            && (forall e :: e in t.shown[|events|..] ==> exists op :: op in ops && IsEventOf(e, op))
            && Refines(env, keys, t.fs.files[P.Target].data, SlotsOf(t.shown))
  {
    hide Files, GoodEnv, FreshOps, Refines, GoodHistory, P.Fresh, SysRun, LoadVault, WellFormed, SlotsOf, SameRoot,
         IsEventOf;
    SysInvariant(env, keys, s, events, ops, moves);
  }

  /** And the password still unlocks it: to the same keys, while the file is at most 64 MiB. */
  lemma CrashLeavesItUnlockable(env: Env, t: KeyTree, password: Bytes, sessionKeys: SessionKeys, s: Sys,
                                events: seq<Event>, ops: seq<Op>, moves: seq<Move>)
    requires Opening(env, StoreKeys(sessionKeys), s, events, ops)
    requires Unlock(env, t, password, s.fs.files[P.Target].data) == Ok(sessionKeys)
    ensures var u := SysRun(env, StoreKeys(sessionKeys), s, ops, moves);
            && P.Target in u.fs.files
            && var after := u.fs.files[P.Target].data;
               Unlock(env, t, password, after) == if |after| <= MAX_VAULT_FILE_LEN then Ok(sessionKeys) else Err(Format)
  {
    hide Files, FreshOps, GoodHistory, P.Fresh, SysRun, LoadVault, WellFormed, SlotsOf, Continues, Unlock, UnwrapRoot,
         AllHold, Lawful, FrameExtents.SortsByStart;
    var keys := StoreKeys(sessionKeys);
    var disk := s.fs.files[P.Target].data;
    SysInvariant(env, keys, s, events, ops, moves);
    var after := SysRun(env, keys, s, ops, moves).fs.files[P.Target].data;
    NonEmptyPassword(env, t, password, disk);
    UnlockedLoads(env, t, password, disk);
    UnlockOfLoaded(env, t, password, after, sessionKeys);
  }

  /** A creator that reports success has left its complete vault at the path, which unlocks with its
      password and holds no item; unless a mutator has replaced it since by a complete file. */
  lemma CreatorLeavesItsVault(env: Env, t: KeyTree, password: Bytes, d: CreateDraws, s: P.Fs, turns: seq<P.Turn>,
                              i: nat)
    requires GoodEnv(env) && CreateVault(env, t, password, d).Ok?
    requires P.Fresh(s) && i < |s.procs| && s.procs[i].creator
    requires s.procs[i].bytes == CreateVault(env, t, password, d).value.0
    requires P.Run(s, turns).procs[i].pc == P.DoneOk
    ensures P.Target in P.Run(s, turns).files
    ensures var at := P.Run(s, turns).files[P.Target];
            var keys := CreateVault(env, t, password, d).value.1;
            P.MutatorsFile(P.Run(s, turns), at)
            || (Unlock(env, t, password, at.data) == Ok(keys) && Refines(env, StoreKeys(keys), at.data, []))
  {
    hide GoodEnv, Refines, CreateVault, Unlock, LoadVault, WellFormed, P.Fresh, P.Run, P.Step, P.MutatorsFile;
    P.CreatorsKeepToThemselves(s, turns, i);
    P.RunKeepsProcs(s, turns);
    CreatedVaultOpens(env, t, password, d);
  }
}
