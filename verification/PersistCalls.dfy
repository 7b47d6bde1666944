/** The persistence calls statement by statement (vault/engine.rs): every execution of
    `persist_vault` and `persist_vault_mutation_v2` is a run of the step machine in
    Persistence. */
module PersistCalls {
  import opened Wire
  import opened Persistence

  /** How the environment answers each I/O call. A write may stop after some bytes. */
  datatype Faults = Faults(claim: Choice, create: Choice, written: Option<nat>, sync: Choice, rename: Choice,
                           syncParent: Choice, removeTmp: Choice, removeTarget: Choice)

  /** One directory, with the run of the machine that its calls have performed so far. */
  class Directory {
    var files: map<Path, File>
    ghost const start: Fs
    ghost var procs: seq<Proc>
    ghost var turns: seq<Turn>

    /** The directory is where the machine got to. */
    ghost predicate Tracks()
      reads this
    {
      Run(start, turns) == Fs(files, procs)
    }

    ghost predicate At(me: nat, pc: Pc)
      reads this
    {
      me < |procs| && procs[me].pc == pc
    }

    ghost predicate Moved(before: seq<Proc>, me: nat, pc: Pc)
      requires me < |before|
      reads this
    {
      procs == before[me := before[me].(pc := pc)]
    }

    constructor (files: map<Path, File>, ghost procs: seq<Proc>)
      ensures start == Fs(files, procs) && turns == [] && this.files == files && this.procs == procs && Tracks()
    {
      this.files := files;
      this.procs := procs;
      start := Fs(files, procs);
      turns := [];
      new;
      RunNone(start);
    }

    /** Record one step of the machine. */
    ghost method Record(me: nat, c: Choice, before: Fs)
      requires Run(start, turns) == before && me < |before.procs| && Step(before, me, c).files == files
      modifies this`procs, this`turns
      ensures Tracks() && procs == Step(before, me, c).procs && turns == old(turns) + [Turn(me, c)]
    {
      hide Run, Step;
      RunOne(start, turns, Turn(me, c));
      turns := turns + [Turn(me, c)];
      procs := Step(before, me, c).procs;
    }

    /** `create_new` on the vault path. */
    method ClaimTarget(me: nat, c: Choice) returns (ok: bool)
      requires Tracks() && At(me, Start) && procs[me].creator && !procs[me].claimed
      modifies this
      ensures Tracks() && |turns| > |old(turns)|
      ensures ok == (c != Fail && Target !in old(files))
      ensures procs == old(procs)[me := old(procs)[me].(pc := if ok then Claimed else CleanTmp, claimed := ok)]
    {
      hide Run;
      ghost var before := Fs(files, procs);
      ok := c != Fail && Target !in files;
      if ok { files := files[Target := File(Some(me), [])]; }
      Record(me, c, before);
    }

    /** `create_new` on the temporary path. */
    method CreateTmp(me: nat, seed: Bytes16, c: Choice) returns (ok: bool)
      requires Tracks() && me < |procs| && procs[me].seed == seed
      requires procs[me].pc == (if procs[me].creator then Claimed else Start)
      modifies this
      ensures Tracks() && |turns| > |old(turns)|
      ensures ok == (c != Fail && Tmp(seed) !in old(files)) && (ok ==> Tmp(seed) in files)
      ensures Moved(old(procs), me, if ok then TmpOpen else CleanTmp)
    {
      hide Run;
      ghost var before := Fs(files, procs);
      ok := c != Fail && Tmp(seed) !in files;
      if ok { files := files[Tmp(seed) := File(Some(me), [])]; }
      Record(me, c, before);
    }

    /** `write_all`: all bytes, or some of them and an error. */
    method WriteTmp(me: nat, seed: Bytes16, bytes: Bytes, written: Option<nat>) returns (ok: bool)
      requires Tracks() && At(me, TmpOpen) && procs[me].seed == seed && procs[me].bytes == bytes && Tmp(seed) in files
      modifies this
      ensures Tracks() && |turns| > |old(turns)|
      ensures ok == (written.None? || written.value >= |bytes|) && Tmp(seed) in files
      ensures Moved(old(procs), me, if ok then Written else CleanTmp)
    {
      hide Run;
      var tmp := Tmp(seed);
      ok := written.None? || written.value >= |bytes|;
      ghost var before := Fs(files, procs);
      if ok {
        files := files[tmp := File(files[tmp].owner, bytes)];
        Record(me, Succeed, before);
      } else {
        files := files[tmp := File(files[tmp].owner, bytes[..written.value])];
        Record(me, WritePart(written.value), before);
        Record(me, Fail, Fs(files, procs));
      }
    }

    /** `sync_all` on the temporary file. */
    method SyncTmp(me: nat, c: Choice) returns (ok: bool)
      requires Tracks() && At(me, Written)
      modifies this
      ensures Tracks() && |turns| > |old(turns)| && ok == (c != Fail) && files == old(files)
      ensures Moved(old(procs), me, if ok then Synced else CleanTmp)
    {
      hide Run;
      ok := c != Fail;
      Record(me, c, Fs(files, procs));
    }

    /** `rename` of the temporary file over the vault path. */
    method RenameTmp(me: nat, seed: Bytes16, c: Choice) returns (ok: bool)
      requires Tracks() && At(me, Synced) && procs[me].seed == seed && Tmp(seed) in files
      modifies this
      ensures Tracks() && |turns| > |old(turns)| && ok == (c != Fail)
      ensures Moved(old(procs), me, if ok then Renamed else CleanTmp)
    {
      hide Run;
      ghost var before := Fs(files, procs);
      ok := c != Fail;
      if ok { files := (files - {Tmp(seed)})[Target := files[Tmp(seed)]]; }
      Record(me, c, before);
    }

    /** `fsync_parent`. */
    method SyncParent(me: nat, c: Choice) returns (ok: bool)
      requires Tracks() && At(me, Renamed)
      modifies this
      ensures Tracks() && |turns| > |old(turns)| && ok == (c != Fail) && files == old(files)
      ensures Moved(old(procs), me, if ok then DoneOk else CleanTmp)
    {
      hide Run;
      ok := c != Fail;
      Record(me, c, Fs(files, procs));
    }

    /** `remove_file`, its result ignored. */
    method RemoveTmp(me: nat, seed: Bytes16, c: Choice)
      requires Tracks() && At(me, CleanTmp) && procs[me].seed == seed
      modifies this
      ensures Tracks() && |turns| > |old(turns)|
      ensures Moved(old(procs), me, if old(procs)[me].claimed then CleanTarget else DoneErr)
    {
      hide Run;
      ghost var before := Fs(files, procs);
      if c != Fail { files := files - {Tmp(seed)}; }
      Record(me, c, before);
    }

    method RemoveTarget(me: nat, c: Choice)
      requires Tracks() && At(me, CleanTarget)
      modifies this
      ensures Tracks() && |turns| > |old(turns)|
      ensures Moved(old(procs), me, DoneErr)
    {
      hide Run;
      ghost var before := Fs(files, procs);
      if c != Fail { files := files - {Target}; }
      Record(me, c, before);
    }
  }

  /** The statements after the claim, which creation and mutation share: temporary file, write,
      sync, rename, sync of the directory; the first failure ends them. */
  method WriteAndRename(dir: Directory, me: nat, seed: Bytes16, bytes: Bytes, io: Faults) returns (ok: bool)
    requires dir.Tracks() && me < |dir.procs| && dir.procs[me].seed == seed && dir.procs[me].bytes == bytes
    requires dir.procs[me].pc == (if dir.procs[me].creator then Claimed else Start)
    modifies dir
    ensures dir.Tracks() && dir.Moved(old(dir.procs), me, if ok then DoneOk else CleanTmp)
  {
    hide Run, Step;
    ok := dir.CreateTmp(me, seed, io.create);
    if !ok { return; }
    ok := dir.WriteTmp(me, seed, bytes, io.written);
    if !ok { return; }
    ok := dir.SyncTmp(me, io.sync);
    if !ok { return; }
    ok := dir.RenameTmp(me, seed, io.rename);
    if !ok { return; }
    ok := dir.SyncParent(me, io.syncParent);
  }

  /** `persist_vault_mutation_v2`. */
  method PersistMutation(dir: Directory, me: nat, seed: Bytes16, bytes: Bytes, io: Faults) returns (ok: bool)
    requires dir.Tracks() && me < |dir.procs| && dir.procs[me] == Proc(false, seed, bytes, Start, false)
    modifies dir
    ensures dir.Tracks() && dir.Moved(old(dir.procs), me, if ok then DoneOk else DoneErr)
  {
    hide Run, Step;
    ok := WriteAndRename(dir, me, seed, bytes, io);
    if !ok { dir.RemoveTmp(me, seed, io.removeTmp); }
  }

  /** `persist_vault`, with its `target_claimed` flag. */
  method PersistVault(dir: Directory, me: nat, seed: Bytes16, bytes: Bytes, io: Faults) returns (ok: bool)
    requires dir.Tracks() && me < |dir.procs| && dir.procs[me] == Proc(true, seed, bytes, Start, false)
    modifies dir
    ensures dir.Tracks()
    ensures var claimed := io.claim != Fail && Target !in old(dir.files);
            dir.procs == old(dir.procs)[me := Proc(true, seed, bytes, if ok then DoneOk else DoneErr, claimed)]
  {
    hide Run, Step;
    var targetClaimed := dir.ClaimTarget(me, io.claim);
    ok := false;
    if targetClaimed { ok := WriteAndRename(dir, me, seed, bytes, io); }
    if !ok {
      dir.RemoveTmp(me, seed, io.removeTmp);
      if targetClaimed { dir.RemoveTarget(me, io.removeTarget); }
    }
  }
}
