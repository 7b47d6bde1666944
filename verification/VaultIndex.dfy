/** The vault file as an index: loading it, staging records and rewriting it with every
    frame offset recomputed (item/store.rs). */
module VaultIndex {
  import opened Wire
  import opened Errors
  import opened Crypto
  import opened FrameExtents
  import opened SealedTable
  import opened RecordFrame
  import Header

  /** Everything outside this crate that the vault code calls. */
  datatype Env = Env(aead: Aead, sort: Sorter)

  ghost predicate GoodEnv(env: Env) { Lawful(env.aead) && SortsByStart(env.sort) }

  datatype Loaded = Loaded(bytes: Bytes, header: Header.VaultHeader, wrkOffset: nat, wrkLen: nat, entries: seq<Entry>)

  /** A record staged for the rewritten table, with its full frame. */
  datatype Record = Record(recordId: Bytes16, kind: u16, revisionId: Bytes16, frame: Bytes)

  // ---- load_vault ---------------------------------------------------------------------

  function LoadVault(env: Env, metadataKey: Bytes, bytes: Bytes): Result<Loaded, CoreError> {
    var header :- Header.ParseHeader(bytes);
    var (prefix, after) :- Header.ReadPrefix(bytes);
    var wrkOffset := Header.HEADER_MIN_LEN + prefix.headerLen;
    var wrkLen :- FrameLenAt(bytes, wrkOffset);
    var tableOffset := wrkOffset + wrkLen;
    var entries :- OpenTable(env.aead, env.sort, bytes, tableOffset, prefix.tableLen, metadataKey, header.vaultId,
                             header.profiles.schema, tableOffset, |bytes|);
    Ok(Loaded(bytes, header, wrkOffset, wrkLen, entries))
  }

  /** `load_vault`: header, prefix, wrapped-root-key frame and table, in that order. */
  method LoadVaultFile(env: Env, metadataKey: Bytes, bytes: Bytes) returns (r: Result<Loaded, CoreError>)
    ensures r == LoadVault(env, metadataKey, bytes)
  {
    hide Header.ParseHeader, Header.ReadPrefix, FrameLenAt, OpenTable;
    var header :- Header.ParseHeaderBytes(bytes);
    var prefix :- Header.ReadPrefix(bytes);
    var wrkOffset := Header.HEADER_MIN_LEN + prefix.0.headerLen;
    var wrkLen :- FrameLenAt(bytes, wrkOffset);
    var tableOffset := wrkOffset + wrkLen;
    var table := OpenRecordTable(env.aead, env.sort, bytes, tableOffset, prefix.0.tableLen, metadataKey, header.vaultId,
                                 header.profiles.schema, tableOffset, |bytes|);
    var entries :- table;
    r := Ok(Loaded(bytes, header, wrkOffset, wrkLen, entries));
  }

  /** The bytes an entry points at. */
  function ExistingFrame(l: Loaded, e: Entry): Result<Bytes, CoreError> {
    if e.frameOffset + e.frameLen > |l.bytes| then Err(Format)
    else Ok(l.bytes[e.frameOffset..e.frameOffset + e.frameLen])
  }

  /** What holds of everything `load_vault` returns. */
  predicate WellFormed(l: Loaded) {
    && Header.HEADER_MIN_LEN <= l.wrkOffset && l.wrkOffset + l.wrkLen <= |l.bytes|
    && l.wrkOffset - Header.HEADER_MIN_LEN < TWO_32 && |l.bytes| < TWO_64 + TWO_64
    && Header.ReadSection(l.bytes[Header.HEADER_MIN_LEN..l.wrkOffset]) == Ok(l.header)
    && l.header.profiles == Header.SUITE && l.header.formatVersion == Header.FORMAT_VERSION
    && l.wrkLen < TWO_32
    && FrameEnd(l.bytes[l.wrkOffset..l.wrkOffset + l.wrkLen], 0) == Ok(l.wrkLen)
    && DistinctIds(l.entries)
    && forall e :: e in l.entries ==> LegalKind(e.kind) && e.frameOffset + e.frameLen <= |l.bytes|
  }

  lemma ScanOfSlice(bytes: Bytes, offset: nat, end: nat)
    requires FrameEnd(bytes, offset) == Ok(end) && end <= |bytes|
    ensures FrameEnd(bytes[offset..end], 0) == Ok(end - offset)
  {
    hide FrameEnd;
    var s, n := bytes[offset..], end - offset;
    ScanShift(bytes, offset);
    assert s[..n] == bytes[offset..end];
    ScanNeedsOnlyTheFrame(s, n);
  }

  lemma ScanNeedsOnlyTheFrame(s: Bytes, n: nat)
    requires FrameEnd(s, 0) == Ok(n) && n <= |s|
    ensures FrameEnd(s[..n], 0) == Ok(n)
  {
    var f := s[..n];
    assert s == f + s[n..];
    var at := FIXED_PREFIX_LEN + s[36];
    ReadPrefixOnly(f, s[n..], at);
    ReadPrefixOnly(f, s[n..], at + 4 + ReadU32At(s, at).value);
  }

  lemma HeaderOfSection(section: Bytes)
    requires Header.ReadSection(section).Ok?
    ensures Header.ReadSection(section).value.profiles == Header.SUITE
    ensures Header.ReadSection(section).value.formatVersion == Header.FORMAT_VERSION
  {
    hide Header.ReadTlvs;
  }

  lemma LoadedIsWellFormed(env: Env, metadataKey: Bytes, bytes: Bytes)
    requires SortsByStart(env.sort) && LoadVault(env, metadataKey, bytes).Ok?
    ensures var l := LoadVault(env, metadataKey, bytes).value;
            WellFormed(l) && l.bytes == bytes
  {
    hide OpenTable, FrameEnd, Header.ReadSection, Header.PrintPrefix, Header.ReadPrefix, DistinctIds, SortsByStart;
    var l := LoadVault(env, metadataKey, bytes).value;
    var (prefix, after) := Header.ReadPrefix(bytes).value;
    var tableOffset := l.wrkOffset + l.wrkLen;
    OpenedFramesAreDisjoint(env.aead, env.sort, bytes, tableOffset, prefix.tableLen, metadataKey, l.header.vaultId,
                            l.header.profiles.schema, tableOffset, |bytes|);
    TableInsideFile(env, bytes, tableOffset, prefix.tableLen, metadataKey, l.header.vaultId, l.header.profiles.schema);
    assert after[..prefix.headerLen] == bytes[Header.HEADER_MIN_LEN..l.wrkOffset];
    HeaderOfSection(after[..prefix.headerLen]);
    ScanOfSlice(bytes, l.wrkOffset, tableOffset);
  }

  lemma TableInsideFile(env: Env, bytes: Bytes, offset: nat, len: nat, key: Bytes, vaultId: Bytes16, schema: u16)
    requires OpenTable(env.aead, env.sort, bytes, offset, len, key, vaultId, schema, offset, |bytes|).Ok?
    ensures offset + len <= |bytes|
  {}

  // ---- stage_records --------------------------------------------------------------------

  function KeepRecord(l: Loaded, e: Entry): Result<Record, CoreError> {
    var frame :- ExistingFrame(l, e);
    Ok(Record(e.recordId, e.kind, e.revisionId, frame))
  }

  /** The staging loop from index `i` on, with the replacement not yet taken. */
  function StageFrom(l: Loaded, i: nat, position: Option<nat>, replacement: Option<Record>):
    Result<seq<Record>, CoreError>
    requires i <= |l.entries|
    decreases |l.entries| - i
  {
    if i == |l.entries| then Ok(if replacement.Some? then [replacement.value] else [])
    else if position == Some(i) then
      if replacement.None? then Err(InvalidState)
      else
        var rest :- StageFrom(l, i + 1, position, None);
        Ok([replacement.value] + rest)
    else
      var kept :- KeepRecord(l, l.entries[i]);
      var rest :- StageFrom(l, i + 1, position, replacement);
      Ok([kept] + rest)
  }

  function StageRecords(l: Loaded, position: Option<nat>, replacement: Option<Record>): Result<seq<Record>, CoreError> {
    StageFrom(l, 0, position, replacement)
  }

  /** The records of the loaded file, frames copied verbatim. */
  function KeptRecords(l: Loaded): (rs: seq<Record>)
    requires WellFormed(l)
    ensures |rs| == |l.entries|
  {
    seq(|l.entries|, i requires 0 <= i < |l.entries| =>
      var e := l.entries[i];
      assert e in l.entries;
      Record(e.recordId, e.kind, e.revisionId, l.bytes[e.frameOffset..e.frameOffset + e.frameLen]))
  }

  lemma {:induction false} StagingFrom(l: Loaded, i: nat, position: Option<nat>, r: Record)
    requires WellFormed(l) && i <= |l.entries| && (position.Some? ==> i <= position.value < |l.entries|)
    ensures StageFrom(l, i, position, Some(r))
         == Ok(if position.Some? then KeptRecords(l)[position.value := r][i..] else KeptRecords(l)[i..] + [r])
    decreases |l.entries| - i
  {
    hide WellFormed, StageFrom;
    var kept := KeptRecords(l);
    StageTurn(l, i, position, Some(r));
    if i < |l.entries| {
      KeepsRecord(l, i);
      if position == Some(i) {
        StagingRest(l, i + 1, position);
        assert kept[i := r][i..] == [r] + kept[i + 1..];
      } else {
        StagingFrom(l, i + 1, position, r);
        if position.Some? {
          var all := kept[position.value := r];
          assert all[i..] == [kept[i]] + all[i + 1..];
        } else {
          assert kept[i..] + [r] == [kept[i]] + (kept[i + 1..] + [r]);
        }
      }
    } else {
      assert kept[i..] + [r] == [r];
    }
  }

  /** One turn of the staging loop. */
  lemma StageTurn(l: Loaded, i: nat, position: Option<nat>, replacement: Option<Record>)
    requires i <= |l.entries|
    ensures StageFrom(l, i, position, replacement) ==
              if i == |l.entries| then Ok(if replacement.Some? then [replacement.value] else [])
              else if position == Some(i) then
                if replacement.None? then Err(InvalidState)
                else Front([replacement.value], StageFrom(l, i + 1, position, None))
              else
                var kept := KeepRecord(l, l.entries[i]);
                if kept.Err? then Err(kept.error) else Front([kept.value], StageFrom(l, i + 1, position, replacement))
  {}

  lemma KeepsRecord(l: Loaded, i: nat)
    requires WellFormed(l) && i < |l.entries|
    ensures KeepRecord(l, l.entries[i]) == Ok(KeptRecords(l)[i])
  {
    hide FrameEnd, DistinctIds, Header.ReadSection;
    assert l.entries[i] in l.entries;
  }

  lemma {:induction false} StagingRest(l: Loaded, i: nat, position: Option<nat>)
    requires WellFormed(l) && i <= |l.entries| && position.Some? && position.value < i
    ensures StageFrom(l, i, position, None) == Ok(KeptRecords(l)[i..])
    decreases |l.entries| - i
  {
    hide WellFormed, StageFrom;
    StageTurn(l, i, position, None);
    if i < |l.entries| {
      KeepsRecord(l, i);
      StagingRest(l, i + 1, position);
      assert KeptRecords(l)[i..] == [KeptRecords(l)[i]] + KeptRecords(l)[i + 1..];
    } else {
      assert KeptRecords(l)[i..] == [];
    }
  }

  /** Staging keeps every other record verbatim and in order; the replacement takes the
      given position, or goes to the end when there is none. */
  lemma StagingIsExact(l: Loaded, position: Option<nat>, r: Record)
    requires WellFormed(l) && (position.Some? ==> position.value < |l.entries|)
    ensures StageRecords(l, position, Some(r))
         == Ok(if position.Some? then KeptRecords(l)[position.value := r] else KeptRecords(l) + [r])
  {
    StagingFrom(l, 0, position, r);
  }

  /** `stage_records`: the loop that takes the replacement at most once. */
  method StageRecordsLoop(l: Loaded, position: Option<nat>, replacement: Option<Record>)
    returns (r: Result<seq<Record>, CoreError>)
    ensures r == StageRecords(l, position, replacement)
  {
    var pending := replacement;
    var records: seq<Record> := [];
    FrontNone(StageRecords(l, position, replacement));
    for i := 0 to |l.entries|
      invariant StageRecords(l, position, replacement) == Front(records, StageFrom(l, i, position, pending))
    {
      if position == Some(i) {
        if pending.None? { return Err(InvalidState); }
        FrontMore(records, [pending.value], StageFrom(l, i + 1, position, None));
        records := records + [pending.value];
        pending := None;
      } else {
        var kept :- KeepRecord(l, l.entries[i]);
        FrontMore(records, [kept], StageFrom(l, i + 1, position, pending));
        records := records + [kept];
      }
    }
    if pending.Some? {
      records := records + [pending.value];
    }
    assert records + [] == records;
    r := Ok(records);
  }

  // ---- rewrite_vault -----------------------------------------------------------------------

  function Concat(rs: seq<Record>): Bytes {
    if rs == [] then [] else rs[0].frame + Concat(rs[1..])
  }

  /** Table entries for frames laid end to end from `offset`. */
  function EntriesFor(rs: seq<Record>, offset: nat): (r: Result<seq<Entry>, CoreError>)
    ensures r.Ok? ==> |r.value| == |rs|
  {
    if rs == [] then Ok([])
    else if |rs[0].frame| >= TWO_32 || offset >= TWO_64 then Err(Format)
    else
      var rest :- EntriesFor(rs[1..], offset + |rs[0].frame|);
      Ok([Entry(rs[0].recordId, rs[0].kind, rs[0].revisionId, offset, |rs[0].frame|)] + rest)
  }

  /** Length of the table section, known before the table is sealed. */
  function SectionLen(n: nat): nat { 4 + 24 + TAG_LEN + PaddedLen(n) }

  function FileBytes(hb: Bytes, wb: Bytes, tb: Bytes, fs: Bytes): Bytes
    requires |hb| < TWO_32 && |tb| < TWO_32 && |wb| + |tb| + |fs| < TWO_64
  {
    Header.PrintPrefix(Header.Prefix(|hb|, |tb|, |wb| + |tb| + |fs|)) + (hb + (wb + (tb + fs)))
  }

  /** The file `rewrite_vault` hands to the persistence layer. */
  function RewriteBytes(env: Env, metadataKey: Bytes, l: Loaded, rs: seq<Record>, nonce: Bytes24):
    Result<Bytes, CoreError>
  {
    var wrkEnd := l.wrkOffset + l.wrkLen;
    if !(Header.HEADER_MIN_LEN <= l.wrkOffset <= wrkEnd <= |l.bytes|) then Err(Format)
    else
      var hb, wb := l.bytes[Header.HEADER_MIN_LEN..l.wrkOffset], l.bytes[l.wrkOffset..wrkEnd];
      var es :- EntriesFor(rs, wrkEnd + SectionLen(|rs|));
      var tb :- SealTable(env.aead, metadataKey, l.header.vaultId, l.header.profiles.schema, nonce, es);
      var fs := Concat(rs);
      if |tb| != SectionLen(|rs|) || |hb| >= TWO_32 || |tb| >= TWO_32 || |wb| + |tb| + |fs| >= TWO_64 then Err(Format)
      else Ok(FileBytes(hb, wb, tb, fs))
  }

  /** `rewrite_vault` up to the call of the persistence layer: the loop over
      `next_offset`, `entries` and `frames_concat`. */
  method RewriteVault(env: Env, metadataKey: Bytes, l: Loaded, rs: seq<Record>, nonce: Bytes24)
    returns (r: Result<Bytes, CoreError>)
    ensures r == RewriteBytes(env, metadataKey, l, rs, nonce)
  {
    hide SealTable, SectionLen, EntriesFor, Concat, Header.PrintPrefix;
    var wrkEnd := l.wrkOffset + l.wrkLen;
    if !(Header.HEADER_MIN_LEN <= l.wrkOffset <= wrkEnd <= |l.bytes|) { return Err(Format); }
    var hb, wb := l.bytes[Header.HEADER_MIN_LEN..l.wrkOffset], l.bytes[l.wrkOffset..wrkEnd];
    var sectionLen := SectionLen(|rs|);
    var laid :- LayOut(rs, wrkEnd + sectionLen);
    var entries, framesConcat := laid.0, laid.1;
    var table := SealRecordTable(env.aead, metadataKey, l.header.vaultId, l.header.profiles.schema, nonce, entries);
    var tb :- table;
    if |tb| != sectionLen { return Err(Format); }
    var bodyLen := |wb| + |tb| + |framesConcat|;
    if |hb| >= TWO_32 || |tb| >= TWO_32 || bodyLen >= TWO_64 { return Err(Format); }
    var out := Header.PrintPrefix(Header.Prefix(|hb|, |tb|, bodyLen));
    r := Ok(out + (hb + (wb + (tb + framesConcat))));
  }

  method LayOut(rs: seq<Record>, start: nat) returns (r: Result<(seq<Entry>, Bytes), CoreError>)
    ensures r.Err? ==> EntriesFor(rs, start) == Err(r.error)
    ensures r.Ok? ==> EntriesFor(rs, start) == Ok(r.value.0) && r.value.1 == Concat(rs)
  {
    var nextOffset: nat := start;
    var entries: seq<Entry> := [];
    var framesConcat: Bytes := [];
    assert rs[0..] == rs;
    FrontNone(EntriesFor(rs, start));
    for i := 0 to |rs|
      invariant EntriesFor(rs, start) == Front(entries, EntriesFor(rs[i..], nextOffset))
      invariant Concat(rs) == framesConcat + Concat(rs[i..])
    {
      var record := rs[i];
      assert rs[i..][1..] == rs[i + 1..];
      if |record.frame| >= TWO_32 || nextOffset >= TWO_64 { return Err(Format); }
      var entry := Entry(record.recordId, record.kind, record.revisionId, nextOffset, |record.frame|);
      FrontMore(entries, [entry], EntriesFor(rs[i + 1..], nextOffset + |record.frame|));
      entries := entries + [entry];
      assert framesConcat + (record.frame + Concat(rs[i + 1..])) == (framesConcat + record.frame) + Concat(rs[i + 1..]);
      framesConcat := framesConcat + record.frame;
      nextOffset := nextOffset + |record.frame|;
    }
    assert rs[|rs|..] == [];
    assert entries + [] == entries && framesConcat + [] == framesConcat;
    r := Ok((entries, framesConcat));
  }

  // ---- rewritten frames tile the file -------------------------------------------------------

  function EndOf(e: Entry): nat { e.frameOffset + e.frameLen }

  /** Frames lie end to end from `start` to `end`, in table order, with no gap. */
  predicate Tiles(es: seq<Entry>, start: nat, end: nat) {
    if es == [] then start == end else es[0].frameOffset == start && Tiles(es[1..], EndOf(es[0]), end)
  }

  /** Entry `i` describes record `i`, and its extent in `file` is the record's frame. */
  predicate Describes(e: Entry, r: Record, file: Bytes) {
    && e.recordId == r.recordId && e.kind == r.kind && e.revisionId == r.revisionId
    && e.frameLen == |r.frame|
    && EndOf(e) <= |file| && file[e.frameOffset..EndOf(e)] == r.frame
  }

  predicate DescribesAll(es: seq<Entry>, rs: seq<Record>, file: Bytes) {
    |es| == |rs| && forall i :: 0 <= i < |es| ==> Describes(es[i], rs[i], file)
  }

  lemma {:induction false} LaidOutFramesTile(rs: seq<Record>, pre: Bytes)
    requires EntriesFor(rs, |pre|).Ok?
    ensures var es := EntriesFor(rs, |pre|).value;
            Tiles(es, |pre|, |pre + Concat(rs)|) && DescribesAll(es, rs, pre + Concat(rs))
  {
    if rs != [] {
      var es := EntriesFor(rs, |pre|).value;
      var pre' := pre + rs[0].frame;
      var file := pre + Concat(rs);
      assert file == pre' + Concat(rs[1..]);
      LaidOutFramesTile(rs[1..], pre');
      assert es[1..] == EntriesFor(rs[1..], |pre'|).value;
      assert Describes(es[0], rs[0], file);
      forall i | 0 <= i < |es| ensures Describes(es[i], rs[i], file) {
        if i > 0 { assert es[i] == es[1..][i - 1] && rs[i] == rs[1..][i - 1]; }
      }
    }
  }

  lemma {:induction false} TilesAreOrdered(es: seq<Entry>, start: nat, end: nat)
    requires Tiles(es, start, end)
    ensures start <= end
    ensures forall i :: 0 <= i < |es| ==> start <= es[i].frameOffset && EndOf(es[i]) <= end
    ensures forall i, j :: 0 <= i < j < |es| ==> EndOf(es[i]) <= es[j].frameOffset
  {
    if es != [] {
      TilesAreOrdered(es[1..], EndOf(es[0]), end);
      assert forall i :: 0 < i < |es| ==> es[i] == es[1..][i - 1];
    }
  }

  predicate NonEmptyFrames(rs: seq<Record>) { forall r :: r in rs ==> r.frame != [] }

  predicate DistinctRecordIds(rs: seq<Record>) {
    forall i, j :: 0 <= i < j < |rs| ==> rs[i].recordId != rs[j].recordId
  }

  lemma TiledEntriesAreWellPlaced(sort: Sorter, es: seq<Entry>, rs: seq<Record>, file: Bytes, wrkEnd: nat,
                                  tableEnd: nat)
    requires SortsByStart(sort) && wrkEnd <= tableEnd
    requires Tiles(es, tableEnd, |file|) && DescribesAll(es, rs, file) && NonEmptyFrames(rs)
    requires forall e :: e in es ==> LegalKind(e.kind)
    ensures WellPlaced(sort, es, wrkEnd, tableEnd, |file|) <==> DistinctRecordIds(rs)
  {
    hide SortsByStart, NeighboursApart, Tiles, PairwiseDisjoint, Ordered, NoTies;
    TilesAreOrdered(es, tableEnd, |file|);
    forall e | e in es ensures Placed(e, wrkEnd, tableEnd, |file|) {
      var i :| 0 <= i < |es| && es[i] == e;
    }
    TiledExtents(es, rs, file, tableEnd);
    NeighbourTestIsExact(sort, Extents(es));
    assert forall i :: 0 <= i < |es| ==> Describes(es[i], rs[i], file);
    assert DistinctIds(es) <==> DistinctRecordIds(rs);
  }

  lemma TiledExtents(es: seq<Entry>, rs: seq<Record>, file: Bytes, tableEnd: nat)
    requires Tiles(es, tableEnd, |file|) && DescribesAll(es, rs, file) && NonEmptyFrames(rs)
    ensures Ordered(Extents(es)) && NoTies(Extents(es)) && PairwiseDisjoint(Extents(es))
  {
    hide Tiles;
    TilesAreOrdered(es, tableEnd, |file|);
    var xs := Extents(es);
    forall x | x in xs ensures x.start < x.end {
      var i :| 0 <= i < |xs| && xs[i] == x;
      assert Describes(es[i], rs[i], file) && rs[i] in rs;
    }
  }

  // ---- what was rewritten is what loads ----------------------------------------------------

  /** The prefix and the header of a file come back from its bytes. */
  lemma FileHeader(hb: Bytes, wb: Bytes, tb: Bytes, fs: Bytes)
    requires |hb| < TWO_32 && |tb| < TWO_32 && |wb| + |tb| + |fs| < TWO_64
    ensures var file := FileBytes(hb, wb, tb, fs);
            && |file| == Header.HEADER_MIN_LEN + |hb| + |wb| + |tb| + |fs|
            && Header.ParseHeader(file) == Header.ReadSection(hb)
            && Header.ReadPrefix(file).Ok?
            && Header.ReadPrefix(file).value.0 == Header.Prefix(|hb|, |tb|, |wb| + |tb| + |fs|)
  {
    hide Header.PrintPrefix, Header.ReadPrefix, Header.ParseHeader, Header.ReadSection;
    var body := wb + (tb + fs);
    Header.ParseHeaderOfFile(hb, |tb|, body);
    Header.PrefixRoundTrip(Header.Prefix(|hb|, |tb|, |body|), hb + body);
  }

  /** The bytes before the wrapped-root-key frame, and before the table. */
  function BeforeWrk(hb: Bytes, wb: Bytes, tb: Bytes, fs: Bytes): (pre: Bytes)
    requires |hb| < TWO_32 && |tb| < TWO_32 && |wb| + |tb| + |fs| < TWO_64
    ensures |pre| == Header.HEADER_MIN_LEN + |hb|
  {
    Header.PrintPrefix(Header.Prefix(|hb|, |tb|, |wb| + |tb| + |fs|)) + hb
  }

  lemma FileSplits(hb: Bytes, wb: Bytes, tb: Bytes, fs: Bytes)
    requires |hb| < TWO_32 && |tb| < TWO_32 && |wb| + |tb| + |fs| < TWO_64
    ensures var pre := BeforeWrk(hb, wb, tb, fs);
            && FileBytes(hb, wb, tb, fs) == pre + (wb + (tb + fs))
            && FileBytes(hb, wb, tb, fs) == (pre + wb) + (tb + fs)
            && pre[Header.HEADER_MIN_LEN..] == hb
  {
    hide Header.PrintPrefix;
    var rest := tb + fs;
    var pre := BeforeWrk(hb, wb, tb, fs);
    assert (pre + wb) + rest == pre + (wb + rest);
  }

  /** The wrapped-root-key frame measures the same wherever its bytes are. */
  lemma FrameLenOfSection(pre: Bytes, wb: Bytes, post: Bytes)
    requires FrameEnd(wb, 0) == Ok(|wb|) && |wb| < TWO_32
    ensures FrameLenAt(pre + (wb + post), |pre|) == Ok(|wb|)
  {
    hide FrameEnd;
    ScanIgnoresSuffix(wb, post);
    ScanShift(pre + (wb + post), |pre|);
    assert (pre + (wb + post))[|pre|..] == wb + post;
  }

  /** The table section of an assembled file opens exactly when the record ids are distinct. */
  lemma TableOfSections(env: Env, key: Bytes, header: Header.VaultHeader, pre: Bytes, rs: seq<Record>, nonce: Bytes24,
                        es: seq<Entry>, tb: Bytes)
    requires GoodEnv(env) && NonEmptyFrames(rs)
    requires EntriesFor(rs, |pre| + |tb|) == Ok(es)
    requires SealTable(env.aead, key, header.vaultId, header.profiles.schema, nonce, es) == Ok(tb)
    ensures var file := pre + (tb + Concat(rs));
            && OpenTable(env.aead, env.sort, file, |pre|, |tb|, key, header.vaultId, header.profiles.schema,
                         |pre|, |file|)
               == (if DistinctRecordIds(rs) then Ok(es) else Err(Format))
            && DescribesAll(es, rs, file) && Tiles(es, |pre| + |tb|, |file|)
  {
    hide EntriesFor, Concat, OpenTable, SealTable, WellPlaced, Tiles, DescribesAll, DistinctRecordIds, NonEmptyFrames,
         Lawful, SortsByStart;
    var fs := Concat(rs);
    var file := pre + (tb + fs);
    SealedTableOpens(env.aead, env.sort, key, header.vaultId, header.profiles.schema, nonce, es, pre, fs, |pre|,
                     |file|);
    assert file == (pre + tb) + fs;
    LaidOutFramesTile(rs, pre + tb);
    SealedKindsAreLegal(env.aead, key, header.vaultId, header.profiles.schema, nonce, es);
    TiledEntriesAreWellPlaced(env.sort, es, rs, file, |pre|, |pre| + |tb|);
  }

  /** Loading a file assembled from sections: exactly when the record ids are distinct. */
  lemma LoadOfSections(env: Env, key: Bytes, hb: Bytes, wb: Bytes, rs: seq<Record>, nonce: Bytes24, es: seq<Entry>,
                       tb: Bytes, header: Header.VaultHeader)
    requires GoodEnv(env) && |hb| < TWO_32 && |wb| < TWO_32 && FrameEnd(wb, 0) == Ok(|wb|)
    requires Header.ReadSection(hb) == Ok(header) && NonEmptyFrames(rs)
    requires EntriesFor(rs, Header.HEADER_MIN_LEN + |hb| + |wb| + |tb|) == Ok(es)
    requires SealTable(env.aead, key, header.vaultId, header.profiles.schema, nonce, es) == Ok(tb)
    requires |tb| < TWO_32 && |wb| + |tb| + |Concat(rs)| < TWO_64
    ensures var file := FileBytes(hb, wb, tb, Concat(rs));
            var wrk := Header.HEADER_MIN_LEN + |hb|;
            && LoadVault(env, key, file)
               == (if DistinctRecordIds(rs) then Ok(Loaded(file, header, wrk, |wb|, es)) else Err(Format))
            && DescribesAll(es, rs, file) && Tiles(es, wrk + |wb| + |tb|, |file|)
  {
    hide FrameEnd, FrameLenAt, EntriesFor, Concat, FileBytes, OpenTable, SealTable, Tiles, DescribesAll, BeforeWrk,
         LoadVault, DistinctRecordIds, NonEmptyFrames, GoodEnv, Header.ReadSection, Header.ParseHeader,
         Header.ReadPrefix;
    var fs := Concat(rs);
    var file := FileBytes(hb, wb, tb, fs);
    FileHeader(hb, wb, tb, fs);
    assert FrameLenAt(file, Header.HEADER_MIN_LEN + |hb|) == Ok(|wb|) by {
      FileSplits(hb, wb, tb, fs);
      FrameLenOfSection(BeforeWrk(hb, wb, tb, fs), wb, tb + fs);
    }
    TableInFile(env, key, header, hb, wb, rs, nonce, es, tb);
    LoadSteps(env, key, file, header, |hb|, |tb|, |wb|);
  }

  lemma LoadSteps(env: Env, key: Bytes, bytes: Bytes, header: Header.VaultHeader, headerLen: u32, tableLen: u32,
                  wrkLen: u32)
    requires Header.ParseHeader(bytes) == Ok(header)
    requires Header.ReadPrefix(bytes).Ok?
    requires Header.ReadPrefix(bytes).value.0.headerLen == headerLen
    requires Header.ReadPrefix(bytes).value.0.tableLen == tableLen
    requires FrameLenAt(bytes, Header.HEADER_MIN_LEN + headerLen) == Ok(wrkLen)
    ensures var wrk := Header.HEADER_MIN_LEN + headerLen;
            var table := OpenTable(env.aead, env.sort, bytes, wrk + wrkLen, tableLen, key, header.vaultId,
                                    header.profiles.schema, wrk + wrkLen, |bytes|);
            LoadVault(env, key, bytes) == if table.Ok? then Ok(Loaded(bytes, header, wrk, wrkLen, table.value))
                                          else Err(table.error)
  {
    hide OpenTable, FrameLenAt, Header.ParseHeader, Header.ReadPrefix;
  }

  lemma TableInFile(env: Env, key: Bytes, header: Header.VaultHeader, hb: Bytes, wb: Bytes, rs: seq<Record>,
                    nonce: Bytes24, es: seq<Entry>, tb: Bytes)
    requires GoodEnv(env) && NonEmptyFrames(rs) && |hb| < TWO_32
    requires EntriesFor(rs, Header.HEADER_MIN_LEN + |hb| + |wb| + |tb|) == Ok(es)
    requires SealTable(env.aead, key, header.vaultId, header.profiles.schema, nonce, es) == Ok(tb)
    requires |tb| < TWO_32 && |wb| + |tb| + |Concat(rs)| < TWO_64
    ensures var file := FileBytes(hb, wb, tb, Concat(rs));
            var at := Header.HEADER_MIN_LEN + |hb| + |wb|;
            && OpenTable(env.aead, env.sort, file, at, |tb|, key, header.vaultId, header.profiles.schema, at, |file|)
               == (if DistinctRecordIds(rs) then Ok(es) else Err(Format))
            && DescribesAll(es, rs, file) && Tiles(es, at + |tb|, |file|)
  {
    hide EntriesFor, Concat, FileBytes, OpenTable, SealTable, Tiles, DescribesAll, BeforeWrk, DistinctRecordIds,
         NonEmptyFrames, GoodEnv;
    var pre := BeforeWrk(hb, wb, tb, Concat(rs));
    FileSplits(hb, wb, tb, Concat(rs));
    TableOfSections(env, key, header, pre + wb, rs, nonce, es, tb);
  }

  lemma SealedKindsAreLegal(a: Aead, key: Bytes, vaultId: Bytes16, schema: u16, nonce: Bytes24, es: seq<Entry>)
    requires SealTable(a, key, vaultId, schema, nonce, es).Ok?
    ensures forall e :: e in es ==> LegalKind(e.kind)
  {}

  lemma SplitRange(b: Bytes, i: nat, j: nat, k: nat)
    requires i <= j <= k <= |b|
    ensures b[i..k] == b[i..j] + b[j..k]
  {}

  /** Loading what `rewrite_vault` wrote succeeds exactly when the staged ids are distinct,
      and then gives back the same ids, kinds and revisions in order; each extent is
      byte for byte the staged frame; the frames tile the file from the end of the table to
      the end of the file; header and wrapped-root-key bytes are unchanged. */
  lemma RewrittenVaultLoads(env: Env, key: Bytes, l: Loaded, rs: seq<Record>, nonce: Bytes24)
    requires GoodEnv(env) && WellFormed(l) && NonEmptyFrames(rs)
    requires RewriteBytes(env, key, l, rs, nonce).Ok?
    ensures var file := RewriteBytes(env, key, l, rs, nonce).value;
            var wrkEnd := l.wrkOffset + l.wrkLen;
            && (LoadVault(env, key, file).Ok? <==> DistinctRecordIds(rs))
            && (DistinctRecordIds(rs) ==>
                  var l' := LoadVault(env, key, file).value;
                  && l' == Loaded(file, l.header, l.wrkOffset, l.wrkLen, l'.entries)
                  && DescribesAll(l'.entries, rs, file)
                  && Tiles(l'.entries, wrkEnd + SectionLen(|rs|), |file|))
            && wrkEnd <= |file|
            && file[Header.HEADER_MIN_LEN..wrkEnd] == l.bytes[Header.HEADER_MIN_LEN..wrkEnd]
  {
    hide FrameEnd, EntriesFor, Concat, SealTable, Tiles, DescribesAll, LoadVault, FileBytes, SectionLen,
         DistinctRecordIds, NonEmptyFrames, GoodEnv, DistinctIds, RewriteBytes, Header.ReadSection;
    var wrkEnd := l.wrkOffset + l.wrkLen;
    var hb, wb := l.bytes[Header.HEADER_MIN_LEN..l.wrkOffset], l.bytes[l.wrkOffset..wrkEnd];
    var es, tb := RewriteParts(env, key, l, rs, nonce);
    LoadOfSections(env, key, hb, wb, rs, nonce, es, tb, l.header);
    SameSections(l.bytes, l.wrkOffset, wrkEnd, tb, Concat(rs));
  }

  /** The sections a successful rewrite assembles. */
  lemma RewriteParts(env: Env, key: Bytes, l: Loaded, rs: seq<Record>, nonce: Bytes24)
    returns (es: seq<Entry>, tb: Bytes)
    requires RewriteBytes(env, key, l, rs, nonce).Ok?
    ensures Header.HEADER_MIN_LEN <= l.wrkOffset <= l.wrkOffset + l.wrkLen <= |l.bytes|
    ensures EntriesFor(rs, l.wrkOffset + l.wrkLen + SectionLen(|rs|)) == Ok(es)
    ensures SealTable(env.aead, key, l.header.vaultId, l.header.profiles.schema, nonce, es) == Ok(tb)
    ensures |tb| == SectionLen(|rs|) && |tb| < TWO_32 && l.wrkLen + |tb| + |Concat(rs)| < TWO_64
    ensures l.wrkOffset - Header.HEADER_MIN_LEN < TWO_32
    ensures RewriteBytes(env, key, l, rs, nonce)
         == Ok(FileBytes(l.bytes[Header.HEADER_MIN_LEN..l.wrkOffset], l.bytes[l.wrkOffset..l.wrkOffset + l.wrkLen], tb,
                         Concat(rs)))
  {
    hide EntriesFor, Concat, SealTable, FileBytes, SectionLen;
    es := EntriesFor(rs, l.wrkOffset + l.wrkLen + SectionLen(|rs|)).value;
    tb := SealTable(env.aead, key, l.header.vaultId, l.header.profiles.schema, nonce, es).value;
  }

  /** Rewriting with the same header and wrapped-root-key bytes keeps that stretch of the file. */
  lemma SameSections(bytes: Bytes, wrkOffset: nat, wrkEnd: nat, tb: Bytes, fs: Bytes)
    requires Header.HEADER_MIN_LEN <= wrkOffset <= wrkEnd <= |bytes| && wrkOffset - Header.HEADER_MIN_LEN < TWO_32
    requires |tb| < TWO_32 && wrkEnd - wrkOffset + |tb| + |fs| < TWO_64
    ensures var file := FileBytes(bytes[Header.HEADER_MIN_LEN..wrkOffset], bytes[wrkOffset..wrkEnd], tb, fs);
            && wrkEnd <= |file|
            && file[Header.HEADER_MIN_LEN..wrkEnd] == bytes[Header.HEADER_MIN_LEN..wrkEnd]
  {
    hide FileBytes, BeforeWrk;
    var hb, wb := bytes[Header.HEADER_MIN_LEN..wrkOffset], bytes[wrkOffset..wrkEnd];
    var pre := BeforeWrk(hb, wb, tb, fs);
    FileSplits(hb, wb, tb, fs);
    var file := FileBytes(hb, wb, tb, fs);
    assert file[..wrkEnd] == pre + wb;
    assert file[Header.HEADER_MIN_LEN..wrkEnd] == (pre + wb)[Header.HEADER_MIN_LEN..];
    SplitRange(bytes, Header.HEADER_MIN_LEN, wrkOffset, wrkEnd);
  }
}
