/** Claim, temporary file, rename and cleanup, as interleaved steps of any number of
    processes on one directory (vault/engine.rs). A crash is a process that takes no further
    step; every I/O call may fail. */
module Persistence {
  import opened Wire
  import ItemStore

  /** The vault path, and the sibling path `unique_tmp_path` derives from a seed. */
  datatype Path = Target | Tmp(seed: Bytes16)

  /** A file and the process that created it; `None` is whatever was there before. */
  datatype File = File(owner: Option<nat>, data: Bytes)

  /** Where a process is in `persist_vault` (a creator) or `persist_vault_mutation_v2`. */
  datatype Pc =
    | Start | Claimed | TmpOpen | Written | Synced | Renamed | CleanTmp | CleanTarget | DoneOk | DoneErr

  datatype Proc = Proc(creator: bool, seed: Bytes16, bytes: Bytes, pc: Pc, claimed: bool)

  datatype Fs = Fs(files: map<Path, File>, procs: seq<Proc>)

  /** What the environment decides about one I/O call. */
  datatype Choice = Succeed | Fail | WritePart(n: nat)

  function Remove(files: map<Path, File>, p: Path): map<Path, File> { files - {p} }

  function Goto(s: Fs, i: nat, pc: Pc): Fs
    requires i < |s.procs|
  {
    s.(procs := s.procs[i := s.procs[i].(pc := pc)])
  }

  /** `create_new` on the temporary path. */
  function OpenTmp(s: Fs, i: nat): Fs
    requires i < |s.procs|
  {
    var tmp := Tmp(s.procs[i].seed);
    if tmp in s.files then Goto(s, i, CleanTmp)
    else Goto(s.(files := s.files[tmp := File(Some(i), [])]), i, TmpOpen)
  }

  /** One step of process `i`. */
  function Step(s: Fs, i: nat, c: Choice): (t: Fs)
    requires i < |s.procs|
    ensures |t.procs| == |s.procs|
  {
    var p := s.procs[i];
    var tmp := Tmp(p.seed);
    match p.pc
    case Start =>
      if c == Fail then Goto(s, i, CleanTmp)
      else if !p.creator then OpenTmp(s, i)
      else if Target in s.files then Goto(s, i, CleanTmp)
      else Fs(s.files[Target := File(Some(i), [])], s.procs[i := p.(pc := Claimed, claimed := true)])
    case Claimed => if c == Fail then Goto(s, i, CleanTmp) else OpenTmp(s, i)
    case TmpOpen =>
      if c == Fail || tmp !in s.files then Goto(s, i, CleanTmp)
      else if c.WritePart? && c.n < |p.bytes| then
        s.(files := s.files[tmp := File(s.files[tmp].owner, p.bytes[..c.n])])
      else Goto(s.(files := s.files[tmp := File(s.files[tmp].owner, p.bytes)]), i, Written)
    case Written => Goto(s, i, if c == Fail then CleanTmp else Synced)
    case Synced =>
      if c == Fail || tmp !in s.files then Goto(s, i, CleanTmp)
      else Goto(s.(files := Remove(s.files, tmp)[Target := s.files[tmp]]), i, Renamed)
    case Renamed => Goto(s, i, if c == Fail then CleanTmp else DoneOk)
    // The results of the two removals are ignored.
    case CleanTmp =>
      var files := if c == Fail then s.files else Remove(s.files, tmp);
      Goto(s.(files := files), i, if p.claimed then CleanTarget else DoneErr)
    case CleanTarget =>
      var files := if c == Fail then s.files else Remove(s.files, Target);
      Goto(s.(files := files), i, DoneErr)
    case DoneOk => s
    case DoneErr => s
  }

  datatype Turn = Turn(proc: nat, choice: Choice)

  /** Any interleaving: a schedule of turns, those of unknown processes doing nothing. */
  function Run(s: Fs, turns: seq<Turn>): (t: Fs)
    ensures |t.procs| == |s.procs|
    decreases |turns|
  {
    if turns == [] then s
    else
      var n := |turns| - 1;
      var before := Run(s, turns[..n]);
      if turns[n].proc < |before.procs| then Step(before, turns[n].proc, turns[n].choice) else before
  }

  /** Nobody has moved yet, seeds are pairwise distinct, and no temporary file of these seeds exists. */
  predicate Fresh(s: Fs) {
    && (forall i :: 0 <= i < |s.procs| ==>
          s.procs[i].pc == Start && !s.procs[i].claimed && Tmp(s.procs[i].seed) !in s.files)
    && (forall i, j :: 0 <= i < j < |s.procs| ==> s.procs[i].seed != s.procs[j].seed)
    && (forall p :: p in s.files ==> s.files[p].owner.None?)
  }

  // ---- the invariant -------------------------------------------------------------------------------

  predicate DistinctSeeds(s: Fs) {
    forall i, j :: 0 <= i < j < |s.procs| ==> s.procs[i].seed != s.procs[j].seed
  }

  /** The temporary path of a process holds only what that process put there. */
  predicate TmpOk(s: Fs, i: nat)
    requires i < |s.procs|
  {
    var p := s.procs[i];
    var tmp := Tmp(p.seed);
    && (tmp in s.files ==> s.files[tmp].owner == Some(i) && p.pc != Start && p.pc != Claimed)
    && (p.pc == TmpOpen || p.pc == Written || p.pc == Synced ==> tmp in s.files)
    && ((p.pc == Written || p.pc == Synced) ==> s.files[tmp].data == p.bytes)
    && (p.pc == Renamed || p.pc == DoneOk ==> tmp !in s.files)
  }

  /** The claim flag says what the control point implies. */
  predicate FlagOk(p: Proc) {
    && (p.claimed ==> p.creator && p.pc != Start)
    && (p.creator && p.pc != Start && p.pc != CleanTmp && p.pc != DoneErr ==> p.claimed)
    && (p.pc == CleanTarget ==> p.claimed)
    && (!p.creator ==> p.pc != Claimed)
  }

  /** A creator that has won the claim and has not given it up. */
  predicate Holder(p: Proc) { p.claimed && p.pc != DoneErr }

  predicate Claims(s: Fs) {
    && (forall i, j :: 0 <= i < j < |s.procs| ==> !(Holder(s.procs[i]) && Holder(s.procs[j])))
    && (forall i :: 0 <= i < |s.procs| && Holder(s.procs[i]) ==> Target in s.files)
  }

  /** The vault path holds something complete: what was there at first, the whole bytes of
      one process, or the empty claim of a creator. */
  predicate TargetOk(s: Fs, initial: map<Path, File>) {
    Target in s.files ==>
      match s.files[Target].owner
      case None => Target in initial && s.files[Target] == initial[Target]
      case Some(q) => q < |s.procs| && (s.files[Target].data == s.procs[q].bytes
                                        || (s.files[Target].data == [] && s.procs[q].claimed))
  }

  predicate Inv(s: Fs, initial: map<Path, File>) {
    && DistinctSeeds(s)
    && (forall i :: 0 <= i < |s.procs| ==> TmpOk(s, i) && FlagOk(s.procs[i]))
    && Claims(s)
    && TargetOk(s, initial)
  }

  lemma FreshInv(s: Fs)
    requires Fresh(s)
    ensures Inv(s, s.files)
  {}

  /** A step touches no path but the target and the process's own temporary path, and no
      process but the one that moves, of which seed, bytes and role stay. */
  lemma StepFrame(s: Fs, i: nat, c: Choice, p: Path)
    requires i < |s.procs| && p != Target && p != Tmp(s.procs[i].seed)
    ensures p in Step(s, i, c).files <==> p in s.files
    ensures p in s.files ==> Step(s, i, c).files[p] == s.files[p]
  {}

  lemma StepProcs(s: Fs, i: nat, c: Choice)
    requires i < |s.procs|
    ensures forall j :: 0 <= j < |s.procs| && j != i ==> Step(s, i, c).procs[j] == s.procs[j]
    ensures Step(s, i, c).procs[i].(pc := s.procs[i].pc, claimed := s.procs[i].claimed) == s.procs[i]
  {}

  lemma StepOwnTmp(s: Fs, i: nat, c: Choice)
    requires i < |s.procs| && TmpOk(s, i) && FlagOk(s.procs[i])
    ensures TmpOk(Step(s, i, c), i) && FlagOk(Step(s, i, c).procs[i])
  {}

  lemma StepOtherTmp(s: Fs, i: nat, c: Choice, j: nat)
    requires i < |s.procs| && j < |s.procs| && i != j && TmpOk(s, j) && s.procs[i].seed != s.procs[j].seed
    ensures TmpOk(Step(s, i, c), j)
  {
    StepFrame(s, i, c, Tmp(s.procs[j].seed));
    StepProcs(s, i, c);
  }

  lemma OneHolder(s: Fs, i: nat, j: nat)
    requires Claims(s) && i < |s.procs| && j < |s.procs| && i != j
    ensures !(Holder(s.procs[i]) && Holder(s.procs[j]))
  {
    var a, b := if i < j then i else j, if i < j then j else i;
    assert !(Holder(s.procs[a]) && Holder(s.procs[b]));
  }

  lemma StepClaims(s: Fs, i: nat, c: Choice)
    requires i < |s.procs| && Claims(s) && FlagOk(s.procs[i])
    ensures Claims(Step(s, i, c))
  {
    var t := Step(s, i, c);
    StepProcs(s, i, c);
    assert Holder(t.procs[i]) ==> Holder(s.procs[i]) || Target !in s.files;
    assert Target in s.files ==> Target in t.files || (Holder(s.procs[i]) && !Holder(t.procs[i]));
    forall a, b | 0 <= a < b < |t.procs| ensures !(Holder(t.procs[a]) && Holder(t.procs[b])) {
      assert !(Holder(s.procs[a]) && Holder(s.procs[b]));
      if a == i || b == i {
        var o := if a == i then b else a;
        assert Holder(t.procs[o]) ==> Holder(s.procs[o]) && Target in s.files;
      }
    }
    forall a | 0 <= a < |t.procs| && Holder(t.procs[a]) ensures Target in t.files {
      if a != i {
        OneHolder(s, a, i);
      }
    }
  }

  lemma StepTarget(s: Fs, i: nat, c: Choice, initial: map<Path, File>)
    requires i < |s.procs| && TargetOk(s, initial) && TmpOk(s, i) && FlagOk(s.procs[i])
    ensures TargetOk(Step(s, i, c), initial)
  {}

  lemma DistinctAt(s: Fs, i: nat, j: nat)
    requires DistinctSeeds(s) && i < |s.procs| && j < |s.procs| && i != j
    ensures s.procs[i].seed != s.procs[j].seed
  {
    var a, b := if i < j then i else j, if i < j then j else i;
    assert s.procs[a].seed != s.procs[b].seed;
  }

  lemma StepKeepsSeeds(s: Fs, i: nat, c: Choice)
    requires DistinctSeeds(s) && i < |s.procs|
    ensures DistinctSeeds(Step(s, i, c))
  {
    hide Step;
    StepProcs(s, i, c);
    var t := Step(s, i, c);
    SameButMoved(s.procs[i], t.procs[i]);
    forall j, k | 0 <= j < k < |t.procs| ensures t.procs[j].seed != t.procs[k].seed {
      assert s.procs[j].seed != s.procs[k].seed;
    }
  }

  lemma StepInv(s: Fs, i: nat, c: Choice, initial: map<Path, File>)
    requires i < |s.procs| && Inv(s, initial)
    ensures Inv(Step(s, i, c), initial)
  {
    hide TmpOk, FlagOk, Claims, TargetOk;
    var t := Step(s, i, c);
    StepProcs(s, i, c);
    StepOwnTmp(s, i, c);
    StepClaims(s, i, c);
    StepTarget(s, i, c, initial);
    forall j | 0 <= j < |t.procs| ensures TmpOk(t, j) && FlagOk(t.procs[j]) {
      if j != i {
        DistinctAt(s, i, j);
        StepOtherTmp(s, i, c, j);
      }
    }
  }

  lemma {:induction false} RunInv(s: Fs, turns: seq<Turn>)
    requires Fresh(s)
    ensures Inv(Run(s, turns), s.files)
    decreases |turns|
  {
    hide Inv, Fresh, Step;
    if turns == [] {
      FreshInv(s);
    } else {
      var n := |turns| - 1;
      RunInv(s, turns[..n]);
      var before := Run(s, turns[..n]);
      if turns[n].proc < |before.procs| {
        StepInv(before, turns[n].proc, turns[n].choice, s.files);
      }
    }
  }

  /** A process without the claim, over an existing vault: the path keeps its file, but for the rename
      of a mutator, which puts its complete bytes there. */
  lemma StepUnclaimed(s: Fs, i: nat, c: Choice)
    requires i < |s.procs| && Target in s.files && !s.procs[i].claimed && TmpOk(s, i) && FlagOk(s.procs[i])
    ensures var t := Step(s, i, c);
            && Target in t.files && !t.procs[i].claimed
            && (if s.procs[i].pc == Synced && t.procs[i].pc == Renamed
                then !s.procs[i].creator && t.files[Target].data == s.procs[i].bytes
                else t.files[Target] == s.files[Target])
  {}

  /** No step changes which processes there are, or what they persist. */
  lemma {:induction false} RunKeepsProcs(s: Fs, turns: seq<Turn>)
    ensures forall i :: 0 <= i < |s.procs| ==>
              && Run(s, turns).procs[i].creator == s.procs[i].creator
              && Run(s, turns).procs[i].bytes == s.procs[i].bytes
              && Run(s, turns).procs[i].seed == s.procs[i].seed
    decreases |turns|
  {
    hide Step;
    if turns != [] {
      var n := |turns| - 1;
      RunKeepsProcs(s, turns[..n]);
      var before := Run(s, turns[..n]);
      if turns[n].proc < |before.procs| {
        StepProcs(before, turns[n].proc, turns[n].choice);
        SameButMoved(before.procs[turns[n].proc], Step(before, turns[n].proc, turns[n].choice).procs[turns[n].proc]);
      }
    }
  }

  lemma SameButMoved(p: Proc, q: Proc)
    requires q.(pc := p.pc, claimed := p.claimed) == p
    ensures q.creator == p.creator && q.bytes == p.bytes && q.seed == p.seed
  {}

  // ---- theorems ------------------------------------------------------------------------------------

  /** In every interleaving at most one creator returns Ok. */
  lemma AtMostOneCreatorSucceeds(s: Fs, turns: seq<Turn>, i: nat, j: nat)
    requires Fresh(s) && i < j < |s.procs| && Run(s, turns).procs[i].creator && Run(s, turns).procs[j].creator
    ensures !(Run(s, turns).procs[i].pc == DoneOk && Run(s, turns).procs[j].pc == DoneOk)
  {
    RunInv(s, turns);
    var t := Run(s, turns);
    assert FlagOk(t.procs[i]) && FlagOk(t.procs[j]);
    assert !(Holder(t.procs[i]) && Holder(t.procs[j]));
  }

  /** Cleanup never removes another process's temporary file, and a process that returned Ok
      has left none behind. */
  lemma CleanupRemovesOwnTmp(s: Fs, turns: seq<Turn>, i: nat)
    requires Fresh(s) && i < |s.procs|
    ensures var t := Run(s, turns);
            var tmp := Tmp(t.procs[i].seed);
            && (tmp in t.files ==> t.files[tmp].owner == Some(i))
            && (t.procs[i].pc == DoneOk ==> tmp !in t.files)
  {
    RunInv(s, turns);
    assert TmpOk(Run(s, turns), i);
  }

  /** Whatever interleaves and wherever processes stop, the path never shows a partly written
      vault: absent, unchanged, one process's complete bytes, or an empty claim. */
  lemma TargetIsNeverPartial(s: Fs, turns: seq<Turn>)
    requires Fresh(s)
    ensures TargetOk(Run(s, turns), s.files)
  {
    RunInv(s, turns);
  }

  // ---- an existing vault -------------------------------------------------------------------------------

  /** No claim has ever been won, and the path holds the first bytes or a mutator's complete bytes. */
  predicate Guarded(s: Fs, first: File) {
    && Target in s.files
    && (forall i :: 0 <= i < |s.procs| ==> !s.procs[i].claimed)
    && match s.files[Target].owner
       case None => s.files[Target] == first
       case Some(q) => q < |s.procs| && !s.procs[q].creator && s.files[Target].data == s.procs[q].bytes
  }

  lemma StepGuarded(s: Fs, i: nat, c: Choice, first: File)
    requires i < |s.procs| && Guarded(s, first) && TmpOk(s, i) && FlagOk(s.procs[i])
    ensures Guarded(Step(s, i, c), first)
  {
    StepProcs(s, i, c);
  }

  lemma {:induction false} RunGuarded(s: Fs, turns: seq<Turn>)
    requires Fresh(s) && Target in s.files
    ensures Guarded(Run(s, turns), s.files[Target])
    decreases |turns|
  {
    hide Step, TmpOk, FlagOk;
    if turns != [] {
      var n := |turns| - 1;
      RunGuarded(s, turns[..n]);
      RunInv(s, turns[..n]);
      var before := Run(s, turns[..n]);
      if turns[n].proc < |before.procs| { StepGuarded(before, turns[n].proc, turns[n].choice, s.files[Target]); }
    }
  }

  /** An existing vault is never altered by a creator: with creators and mutators interleaved
      in any way, the path always holds the initial bytes or the complete bytes of one
      mutator, and no creator returns Ok. */
  lemma ExistingVaultIsSafe(s: Fs, turns: seq<Turn>)
    requires Fresh(s) && Target in s.files
    ensures var t := Run(s, turns);
            && Target in t.files
            && (t.files[Target] == s.files[Target]
                || exists q :: 0 <= q < |t.procs| && !t.procs[q].creator && t.files[Target].data == t.procs[q].bytes)
            && forall i :: 0 <= i < |t.procs| && t.procs[i].creator ==> t.procs[i].pc != DoneOk
  {
    RunGuarded(s, turns);
    RunInv(s, turns);
    var t := Run(s, turns);
    forall i | 0 <= i < |t.procs| && t.procs[i].creator ensures t.procs[i].pc != DoneOk { assert FlagOk(t.procs[i]); }
  }

  // ---- the claim of a creator ------------------------------------------------------------------------------

  predicate CreatorsOnly(s: Fs) { forall i :: 0 <= i < |s.procs| ==> s.procs[i].creator }

  /** A file that some mutator put there, complete. */
  predicate MutatorsFile(s: Fs, f: File) {
    f.owner.Some? && f.owner.value < |s.procs| && !s.procs[f.owner.value].creator
    && f.data == s.procs[f.owner.value].bytes
  }

  /** The file at the path is the claim holder's own, complete once it has been renamed; or a
      mutator has meanwhile put its own complete file there. */
  predicate OwnsTarget(s: Fs) {
    forall i :: 0 <= i < |s.procs| && Holder(s.procs[i]) ==> OwnOrMutators(s, i)
  }

  predicate OwnOrMutators(s: Fs, i: nat)
    requires i < |s.procs|
  {
    && Target in s.files
    && (MutatorsFile(s, s.files[Target])
        || (&& s.files[Target].owner == Some(i)
            && (s.procs[i].pc == Renamed || s.procs[i].pc == DoneOk ==> s.files[Target].data == s.procs[i].bytes)))
  }

  lemma StepOwns(s: Fs, i: nat, c: Choice)
    requires i < |s.procs| && OwnsTarget(s) && Claims(s) && TmpOk(s, i) && FlagOk(s.procs[i])
    ensures OwnsTarget(Step(s, i, c))
  {
    hide Step, TmpOk, FlagOk, Claims, OwnOrMutators, Holder;
    var t := Step(s, i, c);
    StepProcs(s, i, c);
    forall j | 0 <= j < |t.procs| && Holder(t.procs[j]) ensures OwnOrMutators(t, j) {
      if j == i { HolderKeepsOwn(s, i, c); }
      else {
        OneHolder(s, i, j);
        OtherKeepsOrWrites(s, i, c, j);
      }
    }
  }

  /** The step of the holder itself, or of a creator that becomes one. */
  lemma HolderKeepsOwn(s: Fs, i: nat, c: Choice)
    requires i < |s.procs| && (Holder(s.procs[i]) ==> OwnOrMutators(s, i)) && TmpOk(s, i) && FlagOk(s.procs[i])
    requires Holder(Step(s, i, c).procs[i])
    ensures OwnOrMutators(Step(s, i, c), i)
  {
    StepProcs(s, i, c);
  }

  /** A process that does not hold the claim leaves the path alone, or is a mutator and puts its
      complete file there. */
  lemma OtherKeepsOrWrites(s: Fs, i: nat, c: Choice, j: nat)
    requires i < |s.procs| && j < |s.procs| && i != j && !Holder(s.procs[i])
    requires OwnOrMutators(s, j) && TmpOk(s, i) && FlagOk(s.procs[i])
    ensures OwnOrMutators(Step(s, i, c), j)
  {
    StepProcs(s, i, c);
    NonHolderStep(s, i, c);
  }

  lemma NonHolderStep(s: Fs, i: nat, c: Choice)
    requires i < |s.procs| && !Holder(s.procs[i]) && Target in s.files && TmpOk(s, i) && FlagOk(s.procs[i])
    ensures var t := Step(s, i, c);
            && Target in t.files
            && (t.files[Target] == s.files[Target]
                || (!s.procs[i].creator && t.files[Target] == File(Some(i), s.procs[i].bytes)))
  {}

  lemma {:induction false} RunOwns(s: Fs, turns: seq<Turn>)
    requires Fresh(s)
    ensures OwnsTarget(Run(s, turns))
    decreases |turns|
  {
    hide Step, TmpOk, FlagOk, OwnsTarget, Claims;
    if turns == [] {
      NoHolderYet(s);
    } else {
      var n := |turns| - 1;
      RunOwns(s, turns[..n]);
      RunInv(s, turns[..n]);
      var before := Run(s, turns[..n]);
      if turns[n].proc < |before.procs| { StepOwns(before, turns[n].proc, turns[n].choice); }
    }
  }

  lemma NoHolderYet(s: Fs)
    requires Fresh(s)
    ensures OwnsTarget(s)
  {}

  /** Cleanup of the vault path never meets another creator's claim or file, in any
      interleaving with creators and mutators: what it removes is the cleaner's own, or a
      mutator's complete file. A creator that returned Ok has its complete vault at the path
      unless a mutator has replaced it since. */
  lemma CreatorsKeepToThemselves(s: Fs, turns: seq<Turn>, i: nat)
    requires Fresh(s) && i < |s.procs|
    ensures var t := Run(s, turns);
            && (t.procs[i].pc == CleanTarget ==>
                  Target in t.files && (t.files[Target].owner == Some(i) || MutatorsFile(t, t.files[Target])))
            && (t.procs[i].creator && t.procs[i].pc == DoneOk ==>
                  Target in t.files
                  && (t.files[Target] == File(Some(i), t.procs[i].bytes) || MutatorsFile(t, t.files[Target])))
  {
    hide Run, Fresh, TmpOk, TargetOk;
    RunInv(s, turns);
    RunOwns(s, turns);
    assert FlagOk(Run(s, turns).procs[i]);
  }

  /** Among creators alone it is the cleaner's own, and a successful creator's vault stays. */
  lemma CreatorsAlone(s: Fs, turns: seq<Turn>, i: nat)
    requires Fresh(s) && CreatorsOnly(s) && i < |s.procs|
    ensures var t := Run(s, turns);
            && (t.procs[i].pc == CleanTarget ==> Target in t.files && t.files[Target].owner == Some(i))
            && (t.procs[i].pc == DoneOk ==> Target in t.files && t.files[Target] == File(Some(i), t.procs[i].bytes))
  {
    hide Run, Fresh;
    CreatorsKeepToThemselves(s, turns, i);
    RunKeepsProcs(s, turns);
  }

  // ---- creators against mutators ----------------------------------------------------------------------------

  predicate MutatorsOnly(s: Fs) { forall i :: 0 <= i < |s.procs| ==> !s.procs[i].creator }

  /** A mutation that has returned Ok, and a path with nothing at it. */
  predicate LostMutation(s: Fs) {
    Target !in s.files && exists j :: 0 <= j < |s.procs| && !s.procs[j].creator && s.procs[j].pc == DoneOk
  }

  /** A mutation that returned Ok leaves a vault at the path in every interleaving exactly when
      the vault was there at first or creators and mutators do not meet. When they meet over an
      absent vault, a creator whose directory sync fails after its rename removes whatever is
      at the path by then. */
  lemma MutationSurvivesExactly(s: Fs)
    requires Fresh(s)
    ensures (forall turns :: !LostMutation(Run(s, turns)))
            <==> (Target in s.files || CreatorsOnly(s) || MutatorsOnly(s))
  {
    hide Run, Fresh;
    if Target in s.files || CreatorsOnly(s) || MutatorsOnly(s) {
      forall turns ensures !LostMutation(Run(s, turns)) {
        if Target in s.files { RunGuarded(s, turns); }
        else if CreatorsOnly(s) { RunKeepsProcs(s, turns); }
        else { RunMutators(s, turns); }
      }
    } else {
      var i :| 0 <= i < |s.procs| && s.procs[i].creator;
      var j :| 0 <= j < |s.procs| && !s.procs[j].creator;
      FailedCreatorCanRemoveMutation(s, i, j);
    }
  }

  /** Among mutators alone the target stays once it has been written. */
  predicate Kept(s: Fs) {
    && MutatorsOnly(s)
    && forall j :: 0 <= j < |s.procs| ==>
         !s.procs[j].claimed && (s.procs[j].pc == Renamed || s.procs[j].pc == DoneOk ==> Target in s.files)
  }

  lemma StepKept(s: Fs, i: nat, c: Choice)
    requires i < |s.procs| && Kept(s) && FlagOk(s.procs[i])
    ensures Kept(Step(s, i, c))
  {}

  lemma {:induction false} RunMutators(s: Fs, turns: seq<Turn>)
    requires Fresh(s) && MutatorsOnly(s)
    ensures Kept(Run(s, turns))
    decreases |turns|
  {
    hide Step, TmpOk, FlagOk, Claims, TargetOk;
    if turns != [] {
      var n := |turns| - 1;
      RunMutators(s, turns[..n]);
      RunInv(s, turns[..n]);
      var before := Run(s, turns[..n]);
      if turns[n].proc < |before.procs| { StepKept(before, turns[n].proc, turns[n].choice); }
    }
  }

  function Four(t: Turn): seq<Turn> { [t, t, t, t] }
  function Five(t: Turn): seq<Turn> { [t, t, t, t, t] }

  lemma FailedCreatorCanRemoveMutation(s: Fs, i: nat, j: nat)
    requires Fresh(s) && Target !in s.files
    requires i < |s.procs| && j < |s.procs| && s.procs[i].creator && !s.procs[j].creator
    ensures exists turns :: LostMutation(Run(s, turns))
  {
    hide Run, Step;
    assert s.procs[i].seed != s.procs[j].seed by { DistinctAt(s, i, j); }
    var creates, mutates := Five(Turn(i, Succeed)), Five(Turn(j, Succeed));
    var cleans := [Turn(i, Fail), Turn(i, Succeed), Turn(i, Succeed)];
    CreatorRuns(s, i);
    var renamed := Run(s, creates);
    MutatorRuns(renamed, j);
    var mutated := Run(renamed, mutates);
    CreatorCleans(mutated, i);
    var cleaned := Run(mutated, cleans);
    assert cleaned.procs[j].pc == DoneOk && !cleaned.procs[j].creator;
    RunAppend(s, creates, mutates);
    RunAppend(s, creates + mutates, cleans);
    assert LostMutation(Run(s, creates + mutates + cleans));
  }

  lemma {:induction false} RunAppend(s: Fs, xs: seq<Turn>, ys: seq<Turn>)
    ensures Run(s, xs + ys) == Run(Run(s, xs), ys)
    decreases |ys|
  {
    hide Step;
    if ys == [] {
      assert xs + ys == xs;
    } else {
      var n := |ys| - 1;
      assert (xs + ys)[..|xs| + n] == xs + ys[..n];
      RunAppend(s, xs, ys[..n]);
    }
  }

  lemma RunOne(s: Fs, turns: seq<Turn>, t: Turn)
    requires t.proc < |Run(s, turns).procs|
    ensures Run(s, turns + [t]) == Step(Run(s, turns), t.proc, t.choice)
  {
    assert (turns + [t])[..|turns|] == turns;
  }

  lemma RunNone(s: Fs)
    ensures Run(s, []) == s
  {}

  lemma RunTwo(s0: Fs, f: Turn, t: Turn, s1: Fs)
    requires f.proc == t.proc < |s0.procs| && s1 == Step(s0, f.proc, f.choice)
    ensures Run(s0, [f, t]) == Step(s1, t.proc, t.choice)
  {
    hide Step, Run;
    RunNone(s0);
    assert [] + [f] == [f] && [f] + [t] == [f, t];
    RunOne(s0, [], f);
    RunOne(s0, [f], t);
  }

  lemma RunFour(s0: Fs, t: Turn, s1: Fs, s2: Fs, s3: Fs)
    requires t.proc < |s0.procs| && s1 == Step(s0, t.proc, t.choice) && s2 == Step(s1, t.proc, t.choice)
    requires s3 == Step(s2, t.proc, t.choice)
    ensures Run(s0, Four(t)) == Step(s3, t.proc, t.choice)
  {
    hide Step, Run;
    RunTwo(s0, t, t, s1);
    RunTwo(s2, t, t, s3);
    RunAppend(s0, [t, t], [t, t]);
    assert [t, t] + [t, t] == [t, t, t, t];
  }

  lemma RunFive(s0: Fs, t: Turn, s1: Fs, s2: Fs, s3: Fs, s4: Fs)
    requires t.proc < |s0.procs| && s1 == Step(s0, t.proc, t.choice) && s2 == Step(s1, t.proc, t.choice)
    requires s3 == Step(s2, t.proc, t.choice) && s4 == Step(s3, t.proc, t.choice)
    ensures Run(s0, Five(t)) == Step(s4, t.proc, t.choice)
  {
    hide Step, Run;
    RunFour(s0, t, s1, s2, s3);
    RunOne(s0, Four(t), t);
    assert Four(t) + [t] == Five(t);
  }

  lemma RunThree(s0: Fs, f: Turn, t: Turn, s1: Fs, s2: Fs)
    requires f.proc == t.proc < |s0.procs|
    requires s1 == Step(s0, f.proc, f.choice) && s2 == Step(s1, t.proc, t.choice)
    ensures Run(s0, [f, t, t]) == Step(s2, t.proc, t.choice)
  {
    hide Step, Run;
    RunTwo(s0, f, t, s1);
    RunOne(s0, [f, t], t);
    assert [f, t] + [t] == [f, t, t];
  }

  /** Write, sync and rename, from a temporary file just opened. */
  lemma WriteSyncRename(files: map<Path, File>, procs: seq<Proc>, i: nat, p: Proc)
    requires i < |procs| && Tmp(p.seed) !in files
    ensures var tmp := Tmp(p.seed);
            var s2 := Fs(files[tmp := File(Some(i), [])], procs[i := p.(pc := TmpOpen)]);
            var s3 := Fs(files[tmp := File(Some(i), p.bytes)], procs[i := p.(pc := Written)]);
            var s4 := Fs(s3.files, procs[i := p.(pc := Synced)]);
            && s3 == Step(s2, i, Succeed) && s4 == Step(s3, i, Succeed)
            && Step(s4, i, Succeed) == Fs(files[Target := File(Some(i), p.bytes)], procs[i := p.(pc := Renamed)])
  {
    assert (files[Tmp(p.seed) := File(Some(i), p.bytes)] - {Tmp(p.seed)}) == files;
  }

  lemma CreatorClaims(s: Fs, i: nat)
    requires i < |s.procs| && s.procs[i].creator && s.procs[i].pc == Start
    requires Target !in s.files && Tmp(s.procs[i].seed) !in s.files
    ensures var claim, p := File(Some(i), []), s.procs[i].(claimed := true);
            var s1 := Fs(s.files[Target := claim], s.procs[i := p.(pc := Claimed)]);
            && s1 == Step(s, i, Succeed)
            && Fs(s1.files[Tmp(p.seed) := claim], s.procs[i := p.(pc := TmpOpen)]) == Step(s1, i, Succeed)
  {}

  /** A creator that nothing interrupts, up to the rename. */
  lemma CreatorRuns(s: Fs, i: nat)
    requires i < |s.procs| && s.procs[i].creator && s.procs[i].pc == Start
    requires Target !in s.files && Tmp(s.procs[i].seed) !in s.files
    ensures Run(s, Five(Turn(i, Succeed)))
         == Fs(s.files[Target := File(Some(i), s.procs[i].bytes)],
               s.procs[i := s.procs[i].(pc := Renamed, claimed := true)])
  {
    var claim := File(Some(i), []);
    var tmp := Tmp(s.procs[i].seed);
    var p := s.procs[i].(claimed := true);
    var s1 := Fs(s.files[Target := claim], s.procs[i := p.(pc := Claimed)]);
    var s2 := Fs(s1.files[tmp := claim], s.procs[i := p.(pc := TmpOpen)]);
    hide Run, Step;
    CreatorClaims(s, i);
    WriteSyncRename(s1.files, s.procs, i, p);
    assert s1.files[Target := File(Some(i), p.bytes)] == s.files[Target := File(Some(i), p.bytes)];
    var s3 := Fs(s1.files[tmp := File(Some(i), p.bytes)], s.procs[i := p.(pc := Written)]);
    RunFive(s, Turn(i, Succeed), s1, s2, s3, Fs(s3.files, s.procs[i := p.(pc := Synced)]));
  }

  lemma MutatorOpens(s: Fs, j: nat)
    requires j < |s.procs| && !s.procs[j].creator && s.procs[j].pc == Start && Tmp(s.procs[j].seed) !in s.files
    ensures Step(s, j, Succeed)
         == Fs(s.files[Tmp(s.procs[j].seed) := File(Some(j), [])], s.procs[j := s.procs[j].(pc := TmpOpen)])
  {}

  lemma RenamedIsSynced(s: Fs, j: nat)
    requires j < |s.procs| && s.procs[j].pc == Renamed
    ensures Step(s, j, Succeed) == s.(procs := s.procs[j := s.procs[j].(pc := DoneOk)])
  {}

  /** A mutator that nothing interrupts, up to the rename. */
  lemma MutatorRenames(s: Fs, j: nat)
    requires j < |s.procs| && !s.procs[j].creator && s.procs[j].pc == Start && Tmp(s.procs[j].seed) !in s.files
    ensures Run(s, Four(Turn(j, Succeed)))
         == Fs(s.files[Target := File(Some(j), s.procs[j].bytes)], s.procs[j := s.procs[j].(pc := Renamed)])
  {
    hide Run, Step;
    var tmp := Tmp(s.procs[j].seed);
    var p := s.procs[j];
    var s1 := Fs(s.files[tmp := File(Some(j), [])], s.procs[j := p.(pc := TmpOpen)]);
    var s2 := Fs(s.files[tmp := File(Some(j), p.bytes)], s.procs[j := p.(pc := Written)]);
    MutatorOpens(s, j);
    WriteSyncRename(s.files, s.procs, j, p);
    RunFour(s, Turn(j, Succeed), s1, s2, Fs(s2.files, s.procs[j := p.(pc := Synced)]));
  }

  /** A mutator that nothing interrupts. */
  lemma MutatorRuns(s: Fs, j: nat)
    requires j < |s.procs| && !s.procs[j].creator && s.procs[j].pc == Start && Tmp(s.procs[j].seed) !in s.files
    ensures Run(s, Five(Turn(j, Succeed)))
         == Fs(s.files[Target := File(Some(j), s.procs[j].bytes)], s.procs[j := s.procs[j].(pc := DoneOk)])
  {
    hide Run, Step;
    var ok := Turn(j, Succeed);
    var p := s.procs[j];
    MutatorRenames(s, j);
    var renamed := Run(s, Four(ok));
    RenamedIsSynced(renamed, j);
    assert renamed.procs[j := p.(pc := DoneOk)] == s.procs[j := p.(pc := DoneOk)];
    RunOne(s, Four(ok), ok);
    assert Four(ok) + [ok] == Five(ok);
  }

  /** A creator whose directory sync fails, to its end. */
  lemma CreatorCleans(s: Fs, i: nat)
    requires i < |s.procs| && s.procs[i].claimed && s.procs[i].pc == Renamed
    ensures Run(s, [Turn(i, Fail), Turn(i, Succeed), Turn(i, Succeed)])
         == Fs(s.files - {Tmp(s.procs[i].seed), Target}, s.procs[i := s.procs[i].(pc := DoneErr)])
  {
    hide Run;
    var p := s.procs[i];
    var s1 := Fs(s.files, s.procs[i := p.(pc := CleanTmp)]);
    var s2 := Fs(s.files - {Tmp(p.seed)}, s.procs[i := p.(pc := CleanTarget)]);
    RunThree(s, Turn(i, Fail), Turn(i, Succeed), s1, s2);
  }

  // ---- the verdict of a mutation -----------------------------------------------------------------------------

  /** How far a mutator got, told apart by the file at the path and its control point. */
  predicate Outcome(s: Fs, disk: Bytes) {
    && |s.procs| == 1 && !s.procs[0].creator && !s.procs[0].claimed
    && Target in s.files
    && TmpOk(s, 0) && FlagOk(s.procs[0])
    && ((s.procs[0].pc == Renamed || s.procs[0].pc == DoneOk) ==> s.files[Target].data == s.procs[0].bytes)
    && (s.files[Target].data == disk || s.files[Target].data == s.procs[0].bytes)
  }

  /** A mutation run to its end against an existing vault, with any I/O failures, ends in one
      of the three outcomes that the item store distinguishes. In particular it can report an
      error with the new bytes already in place. */
  lemma {:induction false} MutationOutcomes(s: Fs, disk: Bytes, turns: seq<Turn>) returns (io: ItemStore.Io)
    requires Fresh(s) && |s.procs| == 1 && !s.procs[0].creator
    requires Target in s.files && s.files[Target].data == disk
    requires Run(s, turns).procs[0].pc in {DoneOk, DoneErr}
    ensures var t := Run(s, turns);
            && Target in t.files
            && ItemStore.Persist(disk, s.procs[0].bytes, io).0 == t.files[Target].data
            && (ItemStore.Persist(disk, s.procs[0].bytes, io).1.Ok? <==> t.procs[0].pc == DoneOk)
  {
    RunOutcome(s, disk, turns);
    var t := Run(s, turns);
    if t.procs[0].pc == DoneOk { io := ItemStore.Committed; }
    else if t.files[Target].data == disk { io := ItemStore.NotRenamed; }
    else { io := ItemStore.RenamedNotSynced; }
  }

  lemma StepOutcome(s: Fs, disk: Bytes, c: Choice)
    requires Outcome(s, disk)
    ensures Outcome(Step(s, 0, c), disk) && Step(s, 0, c).procs[0].bytes == s.procs[0].bytes
  {}

  lemma {:induction false} RunOutcome(s: Fs, disk: Bytes, turns: seq<Turn>)
    requires Fresh(s) && |s.procs| == 1 && !s.procs[0].creator
    requires Target in s.files && s.files[Target].data == disk
    ensures Outcome(Run(s, turns), disk) && Run(s, turns).procs[0].bytes == s.procs[0].bytes
    decreases |turns|
  {
    hide Step, TmpOk;
    if turns == [] {
      FreshTmpOk(s);
    } else {
      var n := |turns| - 1;
      RunOutcome(s, disk, turns[..n]);
      if turns[n].proc == 0 { StepOutcome(Run(s, turns[..n]), disk, turns[n].choice); }
    }
  }

  lemma FreshTmpOk(s: Fs)
    requires Fresh(s)
    ensures forall i :: 0 <= i < |s.procs| ==> TmpOk(s, i)
  {}

  // ---- an error with the new bytes in place ---------------------------------------------------------------------

  /** Turn `k` of the run renames the temporary file of its process over the path. */
  predicate Renames(s: Fs, turns: seq<Turn>, k: nat)
    requires k < |turns|
  {
    var i := turns[k].proc;
    i < |s.procs| && Run(s, turns[..k]).procs[i].pc == Synced && Run(s, turns[..k + 1]).procs[i].pc == Renamed
  }

  lemma StepRename(s: Fs, disk: Bytes, c: Choice)
    requires Outcome(s, disk)
    ensures var t := Step(s, 0, c);
            && Target in t.files
            && t.files[Target].data == if s.procs[0].pc == Synced && t.procs[0].pc == Renamed then s.procs[0].bytes
                                       else s.files[Target].data
  {}

  /** Some turn of the run is a rename. */
  predicate HasRenamed(s: Fs, turns: seq<Turn>) {
    exists k :: 0 <= k < |turns| && Renames(s, turns, k)
  }

  lemma NothingRenamed(s: Fs)
    ensures !HasRenamed(s, [])
  {}

  lemma HasRenamedSnoc(s: Fs, init: seq<Turn>, last: Turn)
    ensures HasRenamed(s, init + [last]) <==> HasRenamed(s, init) || Renames(s, init + [last], |init|)
  {
    hide Run;
    var turns := init + [last];
    forall k | 0 <= k < |init| ensures Renames(s, turns, k) <==> Renames(s, init, k) {
      assert init[..k] == turns[..k] && init[..k + 1] == turns[..k + 1];
    }
  }

  /** Once the rename has run, and only then, the new bytes are at the path. */
  lemma {:induction false} RenameShows(s: Fs, disk: Bytes, turns: seq<Turn>)
    requires Fresh(s) && |s.procs| == 1 && !s.procs[0].creator && s.procs[0].bytes != disk
    requires Target in s.files && s.files[Target].data == disk
    ensures Target in Run(s, turns).files
    ensures Run(s, turns).files[Target].data == if HasRenamed(s, turns) then s.procs[0].bytes else disk
    decreases |turns|
  {
    hide Step, Outcome, Fresh, HasRenamed;
    if turns == [] {
      NothingRenamed(s);
    } else {
      var n := |turns| - 1;
      var init := turns[..n];
      assert init + [turns[n]] == turns;
      assert turns[..n + 1] == turns;
      RenameShows(s, disk, init);
      RunOutcome(s, disk, init);
      HasRenamedSnoc(s, init, turns[n]);
      if turns[n].proc == 0 { StepRename(Run(s, init), disk, turns[n].choice); }
    }
  }

  /** A mutation that ended with an error left the path alone exactly when its rename never ran. */
  lemma ErrorLeavesPathAloneExactly(s: Fs, disk: Bytes, turns: seq<Turn>)
    requires Fresh(s) && |s.procs| == 1 && !s.procs[0].creator && s.procs[0].bytes != disk
    requires Target in s.files && s.files[Target].data == disk && Run(s, turns).procs[0].pc == DoneErr
    ensures Target in Run(s, turns).files
    ensures Run(s, turns).files[Target].data == disk <==> !HasRenamed(s, turns)
  {
    RenameShows(s, disk, turns);
  }

  /** And it can have run: for every mutator about to start there is a schedule that ends in an error
      with its bytes at the path, the one in which only the directory sync fails. */
  lemma LateErrorHappens(s: Fs, j: nat)
    requires Fresh(s) && j < |s.procs| && !s.procs[j].creator
    ensures exists turns :: Run(s, turns).procs[j].pc == DoneErr
                            && Target in Run(s, turns).files
                            && Run(s, turns).files[Target] == File(Some(j), s.procs[j].bytes)
  {
    hide Run, Step;
    assert Tmp(s.procs[j].seed) !in s.files && s.procs[j].pc == Start && !s.procs[j].claimed;
    var ok, fail := Turn(j, Succeed), Turn(j, Fail);
    MutatorRenames(s, j);
    RenamedFailsLate(Run(s, Four(ok)), j);
    RunAppend(s, Four(ok), [fail, ok]);
    assert Run(s, Four(ok) + [fail, ok]).procs[j].pc == DoneErr;
  }

  /** From the rename to an error: the directory sync fails, the cleanup finds nothing. */
  lemma RenamedFailsLate(s: Fs, j: nat)
    requires j < |s.procs| && s.procs[j].pc == Renamed && !s.procs[j].claimed && Target in s.files
    ensures var t := Run(s, [Turn(j, Fail), Turn(j, Succeed)]);
            |t.procs| == |s.procs| && t.procs[j].pc == DoneErr
            && Target in t.files && t.files[Target] == s.files[Target]
  {
    hide Run, Step;
    LateSteps(s, j);
    RunTwo(s, Turn(j, Fail), Turn(j, Succeed), s.(procs := s.procs[j := s.procs[j].(pc := CleanTmp)]));
  }

  lemma LateSteps(s: Fs, j: nat)
    requires j < |s.procs| && s.procs[j].pc == Renamed && !s.procs[j].claimed
    ensures var p := s.procs[j];
            var s5 := s.(procs := s.procs[j := p.(pc := CleanTmp)]);
            && Step(s, j, Fail) == s5
            && Step(s5, j, Succeed) == Fs(s.files - {Tmp(p.seed)}, s.procs[j := p.(pc := DoneErr)])
  {}
}
