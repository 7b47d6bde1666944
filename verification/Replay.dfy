/** The store of accepted envelope ids and its protection against replay over whole runs
    (transfer/replay.rs). */
module Replay {
  import opened Wire

  type Timestamp = u64

  /** `TransferError` (transfer/protocol.rs), the variants this code returns. */
  datatype TransferError =
    | UnknownProfile | ExpiredEnvelope | ReplayedEnvelopeId | TranscriptMismatch | KeyDerivationFailed
    | DecryptionFailed | SigningFailed | VerificationFailed | UntrustedSender | MalformedReplayStore
    | MissingAnonymousRecipientPublicKey

  const MAX_REPLAY_ENTRIES: nat := 65_536

  datatype SeenId = SeenId(id: Bytes16, expiresAt: Option<Timestamp>)

  // ---- check and insert, on values -----------------------------------------------------------

  /** Not yet expired: expiry strictly after the clock, or no expiry at all. */
  predicate Unexpired(expiresAt: Option<Timestamp>, now: Timestamp) {
    expiresAt.None? || expiresAt.value > now
  }

  function Retain(entries: seq<SeenId>, now: Timestamp): seq<SeenId> {
    if entries == [] then []
    else (if Unexpired(entries[0].expiresAt, now) then [entries[0]] else []) + Retain(entries[1..], now)
  }

  predicate Contains(entries: seq<SeenId>, id: Bytes16) { exists e :: e in entries && e.id == id }

  /** `check_and_insert`; eviction and the expiry test read the clock separately. */
  function CheckInsert(entries: seq<SeenId>, id: Bytes16, expiresAt: Option<Timestamp>, evictNow: Timestamp,
                       checkNow: Timestamp): (seq<SeenId>, Result<(), TransferError>)
  {
    var kept := Retain(entries, evictNow);
    if !Unexpired(expiresAt, checkNow) then (kept, Err(ExpiredEnvelope))
    else if Contains(kept, id) then (kept, Err(ReplayedEnvelopeId))
    else (kept + [SeenId(id, expiresAt)], Ok(()))
  }

  lemma {:induction false} RetainKeepsUnexpired(entries: seq<SeenId>, now: Timestamp, e: SeenId)
    ensures e in Retain(entries, now) <==> e in entries && Unexpired(e.expiresAt, now)
  {
    if entries != [] {
      RetainKeepsUnexpired(entries[1..], now, e);
      assert entries == [entries[0]] + entries[1..];
    }
  }

  // ---- the store as bytes -----------------------------------------------------------------------

  /** An absent expiry is written as zero. */
  function ExpiryWord(expiresAt: Option<Timestamp>): u64 { if expiresAt.Some? then expiresAt.value else 0 }

  function PrintSeen(e: SeenId): (b: Bytes)
    ensures |b| == 24
  {
    e.id + U64(ExpiryWord(e.expiresAt))
  }

  function PrintSeenAll(entries: seq<SeenId>): Bytes {
    if entries == [] then [] else PrintSeen(entries[0]) + PrintSeenAll(entries[1..])
  }

  /** `to_bytes`: the count saturates at u32::MAX. */
  function StoreBytes(entries: seq<SeenId>): Bytes {
    U32(if |entries| < TWO_32 then |entries| else TWO_32 - 1) + PrintSeenAll(entries)
  }

  function TakeSeen(s: Bytes): (r: Result<(SeenId, Bytes), TransferError>)
    ensures r.Ok? ==> s == PrintSeen(r.value.0) + r.value.1
  {
    var (id, r1) :- Take(s, 16, MalformedReplayStore);
    var (millis, r2) :- TakeU64(r1, MalformedReplayStore);
    var e := SeenId(id, if millis == 0 then None else Some(millis));
    assert s == PrintSeen(e) + r2;
    Ok((e, r2))
  }

  /** The entry loop of `from_bytes`, rejecting repeated ids. */
  function TakeAllSeen(s: Bytes, count: nat, before: seq<SeenId>): Result<(seq<SeenId>, Bytes), TransferError> {
    if count == 0 then Ok((before, s))
    else
      var (e, rest) :- TakeSeen(s);
      if Contains(before, e.id) then Err(MalformedReplayStore)
      else TakeAllSeen(rest, count - 1, before + [e])
  }

  /** `from_bytes`. */
  function ParseStore(bytes: Bytes): Result<seq<SeenId>, TransferError> {
    var (count, rest) :- TakeU32(bytes, MalformedReplayStore);
    if count > MAX_REPLAY_ENTRIES then Err(MalformedReplayStore)
    else
      var (entries, tail) :- TakeAllSeen(rest, count, []);
      if tail != [] then Err(MalformedReplayStore) else Ok(entries)
  }

  predicate DistinctSeen(entries: seq<SeenId>) {
    forall i, j :: 0 <= i < j < |entries| ==> entries[i].id != entries[j].id
  }

  /** What the byte format can tell apart: an expiry of zero reads back as no expiry. */
  function Readable(e: SeenId): SeenId { if e.expiresAt == Some(0) then SeenId(e.id, None) else e }

  function ReadableAll(entries: seq<SeenId>): (r: seq<SeenId>)
    ensures |r| == |entries| && forall i :: 0 <= i < |r| ==> r[i] == Readable(entries[i])
  {
    seq(|entries|, i requires 0 <= i < |entries| => Readable(entries[i]))
  }

  lemma TakePrintedSeen(e: SeenId, rest: Bytes)
    ensures TakeSeen(PrintSeen(e) + rest) == Ok((Readable(e), rest))
  {
    assert PrintSeen(e) + rest == e.id + (U64(ExpiryWord(e.expiresAt)) + rest);
    TakeAppend(e.id, U64(ExpiryWord(e.expiresAt)) + rest, MalformedReplayStore);
    TakeU64Append(ExpiryWord(e.expiresAt), rest, MalformedReplayStore);
  }

  /** No entry repeats an id of `before` or of an earlier entry. */
  predicate FreshAfter(before: seq<SeenId>, entries: seq<SeenId>) {
    DistinctSeen(entries) && forall e :: e in entries ==> !Contains(before, e.id)
  }

  lemma {:induction false} TakePrintedStore(entries: seq<SeenId>, rest: Bytes, before: seq<SeenId>)
    ensures TakeAllSeen(PrintSeenAll(entries) + rest, |entries|, before)
         == if FreshAfter(before, entries) then Ok((before + ReadableAll(entries), rest)) else Err(MalformedReplayStore)
    decreases |entries|
  {
    hide TakeSeen, PrintSeen, FreshAfter, Contains, Readable, ReadableAll;
    if entries == [] {
      NothingLeft(before, rest);
    } else {
      var e, tail := entries[0], entries[1..];
      assert PrintSeenAll(entries) + rest == PrintSeen(e) + (PrintSeenAll(tail) + rest);
      TakePrintedSeen(e, PrintSeenAll(tail) + rest);
      TakePrintedStore(tail, rest, before + [Readable(e)]);
      FreshAfterCons(before, entries);
      ReadableCons(before, entries);
    }
  }

  lemma NothingLeft(before: seq<SeenId>, rest: Bytes)
    ensures FreshAfter(before, []) && before + ReadableAll([]) == before && PrintSeenAll([]) + rest == rest
  {}

  lemma ReadableCons(before: seq<SeenId>, entries: seq<SeenId>)
    requires entries != []
    ensures (before + [Readable(entries[0])]) + ReadableAll(entries[1..]) == before + ReadableAll(entries)
    ensures Readable(entries[0]).id == entries[0].id
  {}

  lemma FreshAfterCons(before: seq<SeenId>, entries: seq<SeenId>)
    requires entries != []
    ensures FreshAfter(before, entries) <==>
              !Contains(before, entries[0].id) && FreshAfter(before + [Readable(entries[0])], entries[1..])
  {
    var e, tail := entries[0], entries[1..];
    var next := before + [Readable(e)];
    assert entries == [e] + tail;
    forall x: Bytes16 ensures Contains(next, x) <==> Contains(before, x) || x == e.id {
      assert Readable(e) in next && Readable(e).id == e.id;
      if Contains(before, x) { var y :| y in before && y.id == x; assert y in next; }
    }
    assert DistinctSeen(entries) <==> DistinctSeen(tail) && forall y :: y in tail ==> y.id != e.id by {
      assert forall i :: 0 <= i < |tail| ==> tail[i] == entries[i + 1];
      if DistinctSeen(tail) && forall y :: y in tail ==> y.id != e.id {
        forall i, j | 0 <= i < j < |entries| ensures entries[i].id != entries[j].id {
          assert entries[j] == tail[j - 1];
          if i > 0 { assert entries[i] == tail[i - 1]; }
        }
      }
    }
  }

  /** Saving and loading a store: exact, and possible precisely when the store has at most
      65,536 entries with distinct ids. */
  lemma StoreRoundTrip(entries: seq<SeenId>)
    ensures ParseStore(StoreBytes(entries))
         == if |entries| <= MAX_REPLAY_ENTRIES && DistinctSeen(entries) then Ok(ReadableAll(entries))
            else Err(MalformedReplayStore)
  {
    hide TakeAllSeen, PrintSeenAll;
    var count := if |entries| < TWO_32 then |entries| else TWO_32 - 1;
    TakeU32Append(count, PrintSeenAll(entries), MalformedReplayStore);
    if |entries| <= MAX_REPLAY_ENTRIES {
      TakePrintedStore(entries, [], []);
      assert PrintSeenAll(entries) + [] == PrintSeenAll(entries);
      assert [] + ReadableAll(entries) == ReadableAll(entries);
      assert FreshAfter([], entries) <==> DistinctSeen(entries);
    }
  }

  lemma {:induction false} TakenStoreIsPrinted(s: Bytes, count: nat, before: seq<SeenId>) returns (read: seq<SeenId>)
    requires TakeAllSeen(s, count, before).Ok?
    ensures |read| == count && TakeAllSeen(s, count, before).value.0 == before + read
    ensures s == PrintSeenAll(read) + TakeAllSeen(s, count, before).value.1
    decreases count
  {
    hide TakeSeen, PrintSeen;
    if count == 0 {
      read := [];
    } else {
      var (e, rest) := TakeSeen(s).value;
      var more := TakenStoreIsPrinted(rest, count - 1, before + [e]);
      read := [e] + more;
      assert read[1..] == more && before + read == before + [e] + more;
      assert PrintSeenAll(read) == PrintSeen(e) + PrintSeenAll(more);
    }
  }

  /** Every accepted byte string is the serialization of what it parses to: truncated,
      extended and re-encoded stores are rejected. */
  lemma AcceptedStoreIsCanonical(bytes: Bytes)
    requires ParseStore(bytes).Ok?
    ensures StoreBytes(ParseStore(bytes).value) == bytes
  {
    hide TakeAllSeen, PrintSeenAll;
    var (count, rest) := TakeU32(bytes, MalformedReplayStore).value;
    var read := TakenStoreIsPrinted(rest, count, []);
    assert ParseStore(bytes).value == read;
  }

  // ---- the store as an object ---------------------------------------------------------------------

  class SeenEnvelopeIds {
    var entries: seq<SeenId>

    constructor ()
      ensures entries == []
    {
      entries := [];
    }

    method EvictExpired(now: Timestamp)
      modifies this
      ensures entries == Retain(old(entries), now)
    {
      var kept: seq<SeenId> := [];
      assert entries[0..] == entries;
      for i := 0 to |entries|
        invariant entries == old(entries)
        invariant Retain(entries, now) == kept + Retain(entries[i..], now)
      {
        assert entries[i..][1..] == entries[i + 1..];
        if Unexpired(entries[i].expiresAt, now) {
          kept := kept + [entries[i]];
        }
      }
      assert kept + [] == kept;
      entries := kept;
    }

    method CheckAndInsert(id: Bytes16, expiresAt: Option<Timestamp>, evictNow: Timestamp, checkNow: Timestamp)
      returns (r: Result<(), TransferError>)
      modifies this
      ensures (entries, r) == CheckInsert(old(entries), id, expiresAt, evictNow, checkNow)
    {
      EvictExpired(evictNow);
      if !Unexpired(expiresAt, checkNow) {
        return Err(ExpiredEnvelope);
      }
      if exists e :: e in entries && e.id == id {
        return Err(ReplayedEnvelopeId);
      }
      entries := entries + [SeenId(id, expiresAt)];
      r := Ok(());
    }

    method ToBytes() returns (out: Bytes)
      ensures out == StoreBytes(entries)
    {
      hide ExpiryWord;
      out := U32(if |entries| < TWO_32 then |entries| else TWO_32 - 1);
      ghost var count := out;
      assert entries[0..] == entries;
      for i := 0 to |entries|
        invariant out + PrintSeenAll(entries[i..]) == count + PrintSeenAll(entries)
      {
        assert entries[i..][1..] == entries[i + 1..];
        var e := entries[i];
        assert (out + e.id + U64(ExpiryWord(e.expiresAt))) + PrintSeenAll(entries[i + 1..])
            == out + (PrintSeen(e) + PrintSeenAll(entries[i + 1..]));
        out := out + e.id;
        out := out + U64(ExpiryWord(e.expiresAt));
      }
    }
  }

  /** `from_bytes` with its parser, vector and hash set. */
  method FromBytes(bytes: Bytes) returns (r: Result<seq<SeenId>, TransferError>)
    ensures r == ParseStore(bytes)
  {
    hide TakeAllSeen;
    var parser := new ByteParser(bytes, MalformedReplayStore);
    var count :- parser.TakeU32Le();
    if count > MAX_REPLAY_ENTRIES { return Err(MalformedReplayStore); }
    var read := ReadEntries(parser, count);
    var entries :- read;
    var done := parser.IsEmpty();
    if !done { return Err(MalformedReplayStore); }
    r := Ok(entries);
  }

  method ReadEntries(parser: ByteParser<TransferError>, count: nat) returns (r: Result<seq<SeenId>, TransferError>)
    requires parser.Valid() && parser.error == MalformedReplayStore
    modifies parser`offset
    ensures parser.Valid()
    ensures old(TakeAllSeen(parser.Rest(), count, [])).Err? ==>
              r == Err(old(TakeAllSeen(parser.Rest(), count, [])).error)
    ensures old(TakeAllSeen(parser.Rest(), count, [])).Ok? ==>
              && r == Ok(old(TakeAllSeen(parser.Rest(), count, [])).value.0)
              && parser.Rest() == old(TakeAllSeen(parser.Rest(), count, [])).value.1
  {
    hide TakeSeen, TakeAllSeen, Contains;
    ghost var all := parser.Rest();
    var entries: seq<SeenId> := [];
    var seenIds: set<Bytes16> := {};
    NothingContained();
    for k := 0 to count
      invariant parser.Valid() && parser.error == MalformedReplayStore
      invariant TakeAllSeen(all, count, []) == TakeAllSeen(parser.Rest(), count - k, entries)
      invariant forall x :: x in seenIds <==> Contains(entries, x)
    {
      TakeAllSeenTurn(parser.Rest(), count - k, entries);
      var e :- SeenAt(parser);
      if e.id in seenIds { return Err(MalformedReplayStore); }
      ContainsAfter(entries, e);
      seenIds := seenIds + {e.id};
      entries := entries + [e];
    }
    TakeNoneSeen(parser.Rest(), entries);
    r := Ok(entries);
  }

  lemma NothingContained()
    ensures forall x: Bytes16 :: !Contains([], x)
  {}

  lemma TakeNoneSeen(s: Bytes, before: seq<SeenId>)
    ensures TakeAllSeen(s, 0, before) == Ok((before, s))
  {}

  lemma TakeAllSeenTurn(s: Bytes, count: nat, before: seq<SeenId>)
    requires count > 0
    ensures var t := TakeSeen(s);
            TakeAllSeen(s, count, before) ==
              if t.Err? then Err(t.error)
              else if Contains(before, t.value.0.id) then Err(MalformedReplayStore)
              else TakeAllSeen(t.value.1, count - 1, before + [t.value.0])
  {}

  lemma ContainsAfter(entries: seq<SeenId>, e: SeenId)
    ensures forall x: Bytes16 :: Contains(entries + [e], x) <==> Contains(entries, x) || x == e.id
  {
    forall x: Bytes16 ensures Contains(entries + [e], x) <==> Contains(entries, x) || x == e.id {
      assert e in entries + [e];
      if Contains(entries, x) { var y :| y in entries && y.id == x; assert y in entries + [e]; }
    }
  }

  method SeenAt(parser: ByteParser<TransferError>) returns (r: Result<SeenId, TransferError>)
    requires parser.Valid() && parser.error == MalformedReplayStore
    modifies parser`offset
    ensures parser.Valid()
    ensures old(TakeSeen(parser.Rest())).Err? ==> r == Err(old(TakeSeen(parser.Rest())).error)
    ensures old(TakeSeen(parser.Rest())).Ok? ==>
              r == Ok(old(TakeSeen(parser.Rest())).value.0) && parser.Rest() == old(TakeSeen(parser.Rest())).value.1
  {
    var id :- parser.TakeSlice(16);
    var millis :- parser.TakeU64Le();
    r := Ok(SeenId(id, if millis == 0 then None else Some(millis)));
  }

  // ---- runs -----------------------------------------------------------------------------------------

  /** One step of a receiver: an envelope that fails before the replay check; one that
      reaches it, with the two clock readings; or saving and reloading the store, which
      reports an error and leaves the store in use when the bytes do not load. */
  datatype Step =
    | Rejected
    | Reached(id: Bytes16, expiresAt: Option<Timestamp>, evictNow: Timestamp, checkNow: Timestamp)
    | Reload

  function AfterStep(entries: seq<SeenId>, s: Step): seq<SeenId> {
    match s
    case Rejected => entries
    case Reached(id, expiresAt, evictNow, checkNow) => CheckInsert(entries, id, expiresAt, evictNow, checkNow).0
    case Reload => var r := ParseStore(StoreBytes(entries)); if r.Ok? then r.value else entries
  }

  /** The store after the first `k` steps. */
  function StoreAt(entries: seq<SeenId>, steps: seq<Step>, k: nat): seq<SeenId>
    requires k <= |steps|
  {
    if k == 0 then entries else AfterStep(StoreAt(entries, steps, k - 1), steps[k - 1])
  }

  predicate Accepted(entries: seq<SeenId>, steps: seq<Step>, k: nat)
    requires k < |steps|
  {
    steps[k].Reached?
    && CheckInsert(StoreAt(entries, steps, k), steps[k].id, steps[k].expiresAt, steps[k].evictNow,
                   steps[k].checkNow).1.Ok?
  }

  /** The clock never runs backwards, within a step or from step to step. */
  predicate ClockMoves(steps: seq<Step>) {
    && (forall k :: 0 <= k < |steps| && steps[k].Reached? ==> steps[k].evictNow <= steps[k].checkNow)
    && forall i, j :: 0 <= i < j < |steps| && steps[i].Reached? && steps[j].Reached? ==>
                        steps[i].checkNow <= steps[j].evictNow
  }

  /** Ids are distinct and no entry has the expiry zero that the byte format cannot express. */
  predicate GoodStore(entries: seq<SeenId>) {
    DistinctSeen(entries) && forall e :: e in entries ==> e.expiresAt != Some(0)
  }

  lemma {:induction false} RetainKeepsGood(entries: seq<SeenId>, now: Timestamp)
    requires GoodStore(entries)
    ensures GoodStore(Retain(entries, now))
  {
    if entries != [] {
      var tail := entries[1..];
      assert GoodStore(tail) by { assert forall e :: e in tail ==> e in entries; }
      RetainKeepsGood(tail, now);
      var kept := Retain(tail, now);
      forall e | e in kept ensures e.id != entries[0].id {
        RetainKeepsUnexpired(tail, now, e);
        var i :| 0 <= i < |tail| && tail[i] == e;
        assert entries[i + 1] == e;
      }
    }
  }

  lemma StepKeepsGood(entries: seq<SeenId>, s: Step)
    requires GoodStore(entries)
    ensures GoodStore(AfterStep(entries, s))
  {
    match s {
      case Rejected =>
      case Reached(id, expiresAt, evictNow, checkNow) => RetainKeepsGood(entries, evictNow);
      case Reload => ReloadIsIdentity(entries);
    }
  }

  /** Saving and reloading a good store changes nothing. */
  lemma ReloadIsIdentity(entries: seq<SeenId>)
    requires GoodStore(entries)
    ensures AfterStep(entries, Reload) == entries
  {
    StoreRoundTrip(entries);
    assert ReadableAll(entries) == entries by {
      forall i | 0 <= i < |entries| ensures Readable(entries[i]) == entries[i] { assert entries[i] in entries; }
    }
  }

  lemma {:induction false} StoreStaysGood(entries: seq<SeenId>, steps: seq<Step>, k: nat)
    requires GoodStore(entries) && k <= |steps|
    ensures GoodStore(StoreAt(entries, steps, k))
  {
    if k > 0 {
      StoreStaysGood(entries, steps, k - 1);
      StepKeepsGood(StoreAt(entries, steps, k - 1), steps[k - 1]);
    }
  }

  /** Once accepted, an entry is in the store until the clock has passed its expiry. */
  lemma {:induction false} AcceptedIsRemembered(entries: seq<SeenId>, steps: seq<Step>, i: nat, k: nat)
    requires GoodStore(entries) && ClockMoves(steps) && i < k <= |steps| && Accepted(entries, steps, i)
    ensures var e := SeenId(steps[i].id, steps[i].expiresAt);
            || e in StoreAt(entries, steps, k)
            || exists m :: i < m < k && steps[m].Reached? && !Unexpired(e.expiresAt, steps[m].evictNow)
    decreases k
  {
    hide ClockMoves, GoodStore;
    var e := SeenId(steps[i].id, steps[i].expiresAt);
    var before := StoreAt(entries, steps, k - 1);
    if i == k - 1 {
      assert e in StoreAt(entries, steps, k);
    } else {
      AcceptedIsRemembered(entries, steps, i, k - 1);
      if e in before {
        match steps[k - 1] {
          case Rejected =>
          case Reached(id, expiresAt, evictNow, checkNow) => RetainKeepsUnexpired(before, evictNow, e);
          case Reload => StoreStaysGood(entries, steps, k - 1); ReloadIsIdentity(before);
        }
      }
    }
  }

  /** At most once: in every run with a clock that does not go back, saving and reloading
      the store in between, no two steps accept the same envelope id with the same expiry. */
  lemma AtMostOnce(entries: seq<SeenId>, steps: seq<Step>, i: nat, j: nat)
    requires GoodStore(entries) && ClockMoves(steps) && i < j < |steps|
    requires Accepted(entries, steps, i) && steps[j].Reached?
    requires steps[i].id == steps[j].id && steps[i].expiresAt == steps[j].expiresAt
    ensures !Accepted(entries, steps, j)
  {
    var e := SeenId(steps[i].id, steps[i].expiresAt);
    var store := StoreAt(entries, steps, j);
    AcceptedIsRemembered(entries, steps, i, j);
    RetainKeepsUnexpired(store, steps[j].evictNow, e);
    if e in store {
      if Unexpired(e.expiresAt, steps[j].evictNow) { assert Contains(Retain(store, steps[j].evictNow), e.id); }
    } else {
      var m :| i < m < j && steps[m].Reached? && !Unexpired(e.expiresAt, steps[m].evictNow);
      assert steps[m].checkNow <= steps[j].evictNow && steps[m].evictNow <= steps[m].checkNow;
    }
  }

  // ---- when an id is accepted again ------------------------------------------------------------

  /** Some check between `i` and `k` read a clock at which the entry had expired. */
  predicate EvictedBetween(steps: seq<Step>, e: SeenId, i: nat, k: nat)
    requires k <= |steps|
  {
    exists m :: i < m < k && steps[m].Reached? && !Unexpired(e.expiresAt, steps[m].evictNow)
  }

  /** No check between `i` and `k` accepts the id. */
  predicate NotAcceptedBetween(entries: seq<SeenId>, steps: seq<Step>, id: Bytes16, i: nat, k: nat)
    requires k <= |steps|
  {
    forall m :: i < m < k && steps[m].Reached? && steps[m].id == id ==> !Accepted(entries, steps, m)
  }

  /** Retaining keeps an entry of a given id exactly if it is the live one. */
  lemma RetainById(entries: seq<SeenId>, now: Timestamp, e: SeenId)
    requires DistinctSeen(entries) && (Contains(entries, e.id) <==> e in entries)
    ensures e in Retain(entries, now) <==> e in entries && Unexpired(e.expiresAt, now)
    ensures Contains(Retain(entries, now), e.id) <==> e in Retain(entries, now)
  {
    var kept := Retain(entries, now);
    RetainKeepsUnexpired(entries, now, e);
    if Contains(kept, e.id) {
      var x :| x in kept && x.id == e.id;
      RetainKeepsUnexpired(entries, now, x);
      SameIdSameEntry(entries, x, e);
    }
  }

  lemma SameIdSameEntry(entries: seq<SeenId>, x: SeenId, y: SeenId)
    requires DistinctSeen(entries) && x in entries && y.id == x.id && (Contains(entries, y.id) <==> y in entries)
    ensures x == y
  {
    var i :| 0 <= i < |entries| && entries[i] == x;
    var j :| 0 <= j < |entries| && entries[j] == y;
  }

  lemma StepById(entries: seq<SeenId>, s: Step, e: SeenId)
    requires GoodStore(entries) && (Contains(entries, e.id) <==> e in entries)
    requires s.Reached? && s.id == e.id ==> CheckInsert(entries, s.id, s.expiresAt, s.evictNow, s.checkNow).1.Err?
    ensures var after := AfterStep(entries, s);
            && (Contains(after, e.id) <==> e in after)
            && (e in after <==> e in entries && (s.Reached? ==> Unexpired(e.expiresAt, s.evictNow)))
  {
    hide Retain, GoodStore;
    match s {
      case Rejected =>
      case Reload => ReloadIsIdentity(entries);
      case Reached(id, expiresAt, evictNow, checkNow) =>
        GoodStoreIsDistinct(entries);
        RetainById(entries, evictNow, e);
        ContainsAfter(Retain(entries, evictNow), SeenId(id, expiresAt));
    }
  }

  lemma GoodStoreIsDistinct(entries: seq<SeenId>)
    requires GoodStore(entries)
    ensures DistinctSeen(entries)
  {}

  /** After its acceptance an entry is in the store exactly until a check reads a clock past its
      expiry, and until then it is the only one with its id. */
  lemma {:induction false} HeldUntilEvicted(entries: seq<SeenId>, steps: seq<Step>, i: nat, k: nat)
    requires GoodStore(entries) && i < k <= |steps| && Accepted(entries, steps, i)
    requires NotAcceptedBetween(entries, steps, steps[i].id, i, k)
    ensures var e := SeenId(steps[i].id, steps[i].expiresAt);
            && (e in StoreAt(entries, steps, k) <==> !EvictedBetween(steps, e, i, k))
            && (Contains(StoreAt(entries, steps, k), e.id) <==> e in StoreAt(entries, steps, k))
    decreases k
  {
    hide GoodStore, Retain;
    var e := SeenId(steps[i].id, steps[i].expiresAt);
    var before := StoreAt(entries, steps, k - 1);
    if i == k - 1 {
      assert StoreAt(entries, steps, k) == Retain(before, steps[i].evictNow) + [e];
      ContainsAfter(Retain(before, steps[i].evictNow), e);
    } else {
      HeldUntilEvicted(entries, steps, i, k - 1);
      StoreStaysGood(entries, steps, k - 1);
      StepById(before, steps[k - 1], e);
    }
  }

  /** When an id is accepted again, whatever the clock does: exactly when the later check finds
      the envelope unexpired and some check since then, this one included, has read a clock at which
      the first acceptance had expired. */
  lemma AcceptedAgainExactly(entries: seq<SeenId>, steps: seq<Step>, i: nat, j: nat)
    requires GoodStore(entries) && i < j < |steps| && Accepted(entries, steps, i)
    requires steps[j].Reached? && steps[j].id == steps[i].id
    requires NotAcceptedBetween(entries, steps, steps[i].id, i, j)
    ensures Accepted(entries, steps, j) <==>
              && Unexpired(steps[j].expiresAt, steps[j].checkNow)
              && EvictedBetween(steps, SeenId(steps[i].id, steps[i].expiresAt), i, j + 1)
  {
    hide GoodStore, Retain, StoreAt;
    var e := SeenId(steps[i].id, steps[i].expiresAt);
    var store := StoreAt(entries, steps, j);
    HeldUntilEvicted(entries, steps, i, j);
    StoreStaysGood(entries, steps, j);
    GoodStoreIsDistinct(store);
    RetainById(store, steps[j].evictNow, e);
    assert EvictedBetween(steps, e, i, j + 1) <==>
           EvictedBetween(steps, e, i, j) || !Unexpired(e.expiresAt, steps[j].evictNow);
  }

  /** A replay check that fails removes expired entries and nothing else. */
  lemma FailingCheckOnlyEvicts(entries: seq<SeenId>, id: Bytes16, expiresAt: Option<Timestamp>, evictNow: Timestamp,
                               checkNow: Timestamp, e: SeenId)
    requires CheckInsert(entries, id, expiresAt, evictNow, checkNow).1.Err?
    ensures e in CheckInsert(entries, id, expiresAt, evictNow, checkNow).0
            <==> e in entries && Unexpired(e.expiresAt, evictNow)
  {
    RetainKeepsUnexpired(entries, evictNow, e);
  }

  /** The expiry is part of what is delivered once: after it has passed, the same id is
      accepted again with a later expiry. And the clock must not go back: a receive at a later
      time forgets the entry that an earlier reading would still have needed. */
  lemma LimitsOfReplayProtection(id: Bytes16, other: Bytes16)
    requires id != other
    ensures var again := [Reached(id, Some(10), 5, 5), Reached(id, Some(30), 20, 20)];
            ClockMoves(again) && Accepted([], again, 0) && Accepted([], again, 1)
    ensures var back := [Reached(id, Some(10), 5, 5), Reached(other, None, 20, 20), Reached(id, Some(10), 6, 6)];
            !ClockMoves(back) && Accepted([], back, 0) && Accepted([], back, 2)
  {
    hide StoreAt, Retain, Contains;
    var first, second := SeenId(id, Some(10)), SeenId(other, None);
    RetainOne(first, 20);
    RetainOne(second, 6);
    var again := [Reached(id, Some(10), 5, 5), Reached(id, Some(30), 20, 20)];
    FirstCheck(again);
    assert CheckInsert([first], id, Some(30), 20, 20).1.Ok? by { NothingHeld(id); }
    var back := [Reached(id, Some(10), 5, 5), Reached(other, None, 20, 20), Reached(id, Some(10), 6, 6)];
    FirstCheck(back);
    assert StoreAt([], back, 2) == [second] by {
      NothingHeld(other);
      NextStore([], back, 1);
      assert [] + [second] == [second];
    }
    assert CheckInsert([second], id, Some(10), 6, 6).1.Ok? by { OneHeld(second, id); }
    assert back[1].checkNow > back[2].evictNow;
  }

  lemma RetainOne(e: SeenId, now: Timestamp)
    ensures Retain([e], now) == if Unexpired(e.expiresAt, now) then [e] else []
  {
    assert [e][1..] == [];
  }

  lemma NothingHeld(id: Bytes16)
    ensures !Contains([], id)
  {}

  lemma OneHeld(e: SeenId, id: Bytes16)
    requires e.id != id
    ensures !Contains([e], id)
  {}

  lemma NextStore(entries: seq<SeenId>, steps: seq<Step>, k: nat)
    requires k < |steps|
    ensures StoreAt(entries, steps, k + 1) == AfterStep(StoreAt(entries, steps, k), steps[k])
  {}

  /** A first check on an empty store. */
  lemma FirstCheck(steps: seq<Step>)
    requires steps != [] && steps[0].Reached? && Unexpired(steps[0].expiresAt, steps[0].checkNow)
    ensures Accepted([], steps, 0) && StoreAt([], steps, 1) == [SeenId(steps[0].id, steps[0].expiresAt)]
  {
    var e := SeenId(steps[0].id, steps[0].expiresAt);
    assert StoreAt([], steps, 0) == [] && Retain([], steps[0].evictNow) == [];
    NextStore([], steps, 0);
    assert [] + [e] == [e];
  }
}
