/** The MEK-sealed, padded V2 record table (vault/format.rs). */
module SealedTable {
  import opened Wire
  import opened Errors
  import opened Crypto
  import opened FrameExtents
  import Header

  const ENTRY_LEN: nat := 46
  const COUNT_LEN: nat := 4
  const NONCE_LEN: nat := 24
  const KIND_ITEM: u16 := 0x0001
  const KIND_WRAPPED_ROOT_KEY: u16 := 0x0002
  const KIND_TOMBSTONE: u16 := 0x0006

  datatype Entry = Entry(recordId: Bytes16, kind: u16, revisionId: Bytes16, frameOffset: u64, frameLen: u32)

  predicate LegalKind(kind: u16) { kind != 0 && kind != KIND_WRAPPED_ROOT_KEY }

  // ---- the padding bucket ------------------------------------------------------

  predicate IsPow2(p: nat) { p >= 1 && (p == 1 || (p % 2 == 0 && IsPow2(p / 2))) }

  function Double(p: nat, n: nat): nat
    requires p >= 1
    decreases n - p
  {
    if p >= n then p else Double(2 * p, n)
  }

  /** `checked_next_power_of_two`, with 0 mapped to 1. */
  function Bucket(n: nat): nat { Double(1, n) }

  function PaddedLen(n: nat): nat { COUNT_LEN + ENTRY_LEN * Bucket(n) }

  lemma {:induction false} PowersAreSparse(p: nat, q: nat)
    requires IsPow2(p) && IsPow2(q) && p < q
    ensures 2 * p <= q
  {
    if p > 1 { PowersAreSparse(p / 2, q / 2); }
  }

  lemma {:induction false} DoubleIsLeast(p: nat, n: nat, q: nat)
    requires IsPow2(p) && IsPow2(q) && p <= q && n <= q
    ensures n <= Double(p, n) <= q && IsPow2(Double(p, n)) && p <= Double(p, n)
    decreases n - p
  {
    if p < n {
      PowersAreSparse(p, q);
      assert (2 * p) / 2 == p;
      DoubleIsLeast(2 * p, n, q);
    }
  }

  lemma {:induction false} PowerAbove(p: nat, n: nat) returns (q: nat)
    requires IsPow2(p)
    ensures IsPow2(q) && q >= n && q >= p
    decreases n - p
  {
    if p >= n { q := p; } else { assert (2 * p) / 2 == p; q := PowerAbove(2 * p, n); }
  }

  /** The bucket is the least power of two that is at least `max(n, 1)`. */
  lemma BucketIsLeastPower(n: nat)
    ensures IsPow2(Bucket(n)) && n <= Bucket(n) && 1 <= Bucket(n)
    ensures forall q :: IsPow2(q) && n <= q ==> Bucket(n) <= q
  {
    var b := PowerAbove(1, n);
    DoubleIsLeast(1, n, b);
    forall q | IsPow2(q) && n <= q ensures Bucket(n) <= q { DoubleIsLeast(1, n, q); }
  }

  // ---- plaintext ----------------------------------------------------------------

  function PrintEntry(e: Entry): (b: Bytes)
    ensures |b| == ENTRY_LEN
  {
    e.recordId + (U16(e.kind) + (e.revisionId + (U64(e.frameOffset) + U32(e.frameLen))))
  }

  function PrintEntries(es: seq<Entry>): (b: Bytes)
    ensures |b| == ENTRY_LEN * |es|
  {
    if es == [] then [] else PrintEntry(es[0]) + PrintEntries(es[1..])
  }

  function TablePlaintext(es: seq<Entry>): Bytes
    requires |es| < TWO_32
  {
    BucketIsLeastPower(|es|);
    U32(|es|) + (PrintEntries(es) + Zeros(ENTRY_LEN * (Bucket(|es|) - |es|)))
  }

  function ParseEntry(b: Bytes): Entry
    requires |b| == ENTRY_LEN
  {
    Entry(b[0..16], FromU16(b[16..18]), b[18..34], FromU64(b[34..42]), FromU32(b[42..46]))
  }

  lemma EntryRoundTrip(e: Entry)
    ensures ParseEntry(PrintEntry(e)) == e
  {
    var b := PrintEntry(e);
    assert b[0..16] == e.recordId;
    assert b[16..18] == U16(e.kind);
    assert b[18..34] == e.revisionId;
    assert b[34..42] == U64(e.frameOffset);
    assert b[42..46] == U32(e.frameLen);
  }

  lemma EntryRoundTripBack(b: Bytes)
    requires |b| == ENTRY_LEN
    ensures PrintEntry(ParseEntry(b)) == b
  {
    assert b == b[0..16] + (b[16..18] + (b[18..34] + (b[34..42] + b[42..46])));
  }

  /** The bytes of entry `k` of a table plaintext. */
  function EntrySlice(pt: Bytes, k: nat): (b: Bytes)
    requires COUNT_LEN + ENTRY_LEN * (k + 1) <= |pt|
    ensures |b| == ENTRY_LEN
  {
    pt[COUNT_LEN + ENTRY_LEN * k..COUNT_LEN + ENTRY_LEN * (k + 1)]
  }

  function EntriesOf(pt: Bytes, n: nat): (es: seq<Entry>)
    requires COUNT_LEN + ENTRY_LEN * n <= |pt|
    ensures |es| == n
  {
    seq(n, k requires 0 <= k < n => ParseEntry(EntrySlice(pt, k)))
  }

  lemma {:induction false} EntryPosition(es: seq<Entry>, pre: Bytes, post: Bytes, k: nat)
    requires k < |es|
    ensures var all := pre + (PrintEntries(es) + post);
            var at := |pre| + ENTRY_LEN * k;
            at + ENTRY_LEN <= |all| && all[at..at + ENTRY_LEN] == PrintEntry(es[k])
  {
    var all := pre + (PrintEntries(es) + post);
    if k == 0 {
      assert all == pre + (PrintEntry(es[0]) + (PrintEntries(es[1..]) + post));
    } else {
      assert all == (pre + PrintEntry(es[0])) + (PrintEntries(es[1..]) + post);
      EntryPosition(es[1..], pre + PrintEntry(es[0]), post, k - 1);
    }
  }

  // ---- what the reader checks ------------------------------------------------------

  function ExtentOf(e: Entry): Extent { Extent(e.frameOffset, e.frameOffset + e.frameLen) }

  function Extents(es: seq<Entry>): (xs: seq<Extent>)
    ensures |xs| == |es| && forall i :: 0 <= i < |es| ==> xs[i] == ExtentOf(es[i])
  {
    seq(|es|, i requires 0 <= i < |es| => ExtentOf(es[i]))
  }

  /** A frame lies past the wrapped-root-key frame and the table, inside the file. */
  predicate Placed(e: Entry, wrkEnd: nat, tableEnd: nat, fileLen: nat) {
    && LegalKind(e.kind)
    && wrkEnd <= e.frameOffset
    && tableEnd <= e.frameOffset
    && e.frameOffset + e.frameLen <= fileLen
  }

  predicate DistinctIds(es: seq<Entry>) {
    forall i, j :: 0 <= i < j < |es| ==> es[i].recordId != es[j].recordId
  }

  /** The placement rules a list of entries must satisfy to be opened. */
  predicate WellPlaced(sort: Sorter, es: seq<Entry>, wrkEnd: nat, tableEnd: nat, fileLen: nat) {
    && (forall e :: e in es ==> Placed(e, wrkEnd, tableEnd, fileLen))
    && DistinctIds(es)
    && NeighboursApart(sort(Extents(es)))
  }

  predicate AllZero(b: Bytes) { forall i :: 0 <= i < |b| ==> b[i] == 0 }

  function EntryCount(pt: Bytes): nat
    requires |pt| >= COUNT_LEN
  {
    FromU32(pt[0..4])
  }

  predicate GoodBucket(pt: Bytes) {
    && |pt| >= COUNT_LEN
    && (|pt| - COUNT_LEN) % ENTRY_LEN == 0
    && IsPow2((|pt| - COUNT_LEN) / ENTRY_LEN)
    && EntryCount(pt) <= (|pt| - COUNT_LEN) / ENTRY_LEN
  }

  function OpenPlaintext(sort: Sorter, pt: Bytes, wrkEnd: nat, tableEnd: nat, fileLen: nat):
    Result<seq<Entry>, CoreError>
  {
    if !GoodBucket(pt) then Err(Format)
    else
      var n := EntryCount(pt);
      var es := EntriesOf(pt, n);
      if WellPlaced(sort, es, wrkEnd, tableEnd, fileLen) && AllZero(pt[COUNT_LEN + ENTRY_LEN * n..])
      then Ok(es) else Err(Format)
  }

  // ---- sealing and opening ----------------------------------------------------------

  function TableAad(vaultId: Bytes16, schema: u16): (b: Bytes)
    ensures |b| == 18
  {
    vaultId + U16(schema)
  }

  /** `serialize_sealed_record_table_v2`, under a given fresh nonce. */
  function SealTable(a: Aead, key: Bytes, vaultId: Bytes16, schema: u16, nonce: Bytes24, es: seq<Entry>):
    Result<Bytes, CoreError>
  {
    if schema != Header.SCHEMA_V2 || |es| >= TWO_32 then Err(Format)
    else if !(forall e :: e in es ==> LegalKind(e.kind)) then Err(Format)
    else
      var ct := a.enc(key, nonce, TablePlaintext(es), TableAad(vaultId, schema));
      var len :- TryU32(NONCE_LEN + |ct|, Format);
      Ok(U32(len) + (nonce + ct))
  }

  /** The framing of a table section: declared length, nonce, ciphertext. */
  function ParseSection(section: Bytes): (r: Result<(Bytes24, Bytes), CoreError>)
    ensures r.Ok? ==> |section| >= 4 + NONCE_LEN + TAG_LEN
  {
    if |section| < 4 + NONCE_LEN + TAG_LEN then Err(Format)
    else if |section| != 4 + FromU32(section[0..4]) then Err(Format)
    else Ok((section[4..28], section[28..]))
  }

  /** `open_sealed_record_table_v2`. */
  function OpenTable(a: Aead, sort: Sorter, bytes: Bytes, offset: nat, len: nat, key: Bytes,
                     vaultId: Bytes16, schema: u16, wrkEnd: nat, fileLen: nat): Result<seq<Entry>, CoreError>
  {
    if schema != Header.SCHEMA_V2 || offset + len > |bytes| then Err(Format)
    else
      var (nonce, ct) :- ParseSection(bytes[offset..offset + len]);
      match a.dec(key, nonce, ct, TableAad(vaultId, schema))
      case None => Err(Format)
      case Some(pt) => OpenPlaintext(sort, pt, wrkEnd, offset + len, fileLen)
  }

  // ---- theorems ------------------------------------------------------------------------

  /** Whatever bytes are opened, accepted frames are pairwise disjoint, inside the file,
      and past the wrapped-root-key frame and the table. */
  lemma OpenedFramesAreDisjoint(a: Aead, sort: Sorter, bytes: Bytes, offset: nat, len: nat, key: Bytes,
                                vaultId: Bytes16, schema: u16, wrkEnd: nat, fileLen: nat)
    requires SortsByStart(sort)
    requires OpenTable(a, sort, bytes, offset, len, key, vaultId, schema, wrkEnd, fileLen).Ok?
    ensures var es := OpenTable(a, sort, bytes, offset, len, key, vaultId, schema, wrkEnd, fileLen).value;
            && PairwiseDisjoint(Extents(es))
            && DistinctIds(es)
            && forall e :: e in es ==> LegalKind(e.kind) && wrkEnd <= e.frameOffset
                                       && offset + len <= e.frameOffset && e.frameOffset + e.frameLen <= fileLen
  {
    var es := OpenTable(a, sort, bytes, offset, len, key, vaultId, schema, wrkEnd, fileLen).value;
    assert Ordered(Extents(es));
    NeighbourTestIsSound(sort, Extents(es));
  }

  lemma SealedLength(a: Aead, key: Bytes, vaultId: Bytes16, schema: u16, nonce: Bytes24, es: seq<Entry>)
    requires Lawful(a)
    requires SealTable(a, key, vaultId, schema, nonce, es).Ok?
    ensures |SealTable(a, key, vaultId, schema, nonce, es).value| == 4 + NONCE_LEN + TAG_LEN + PaddedLen(|es|)
  {
    BucketIsLeastPower(|es|);
    assert |TablePlaintext(es)| == PaddedLen(|es|);
  }

  lemma PlaintextReads(es: seq<Entry>)
    requires |es| < TWO_32
    ensures var pt := TablePlaintext(es);
            && |pt| == PaddedLen(|es|) && GoodBucket(pt) && EntryCount(pt) == |es|
            && EntriesOf(pt, |es|) == es
            && AllZero(pt[COUNT_LEN + ENTRY_LEN * |es|..])
  {
    hide PrintEntry, PrintEntries, EntriesOf, IsPow2, Bucket;
    var n := |es|;
    BucketIsLeastPower(n);
    var pad := Zeros(ENTRY_LEN * (Bucket(n) - n));
    var pt := TablePlaintext(es);
    assert pt[0..4] == U32(n);
    assert (|pt| - COUNT_LEN) / ENTRY_LEN == Bucket(n);
    assert pt[COUNT_LEN + ENTRY_LEN * n..] == pad;
    ReadsEntriesBack(es, U32(n), pad);
  }

  lemma ReadsEntriesBack(es: seq<Entry>, count: Bytes, pad: Bytes)
    requires |count| == COUNT_LEN
    ensures EntriesOf(count + (PrintEntries(es) + pad), |es|) == es
  {
    hide PrintEntry, ParseEntry, PrintEntries;
    var pt := count + (PrintEntries(es) + pad);
    forall k | 0 <= k < |es| ensures EntriesOf(pt, |es|)[k] == es[k] {
      EntryPosition(es, count, pad, k);
      assert EntrySlice(pt, k) == PrintEntry(es[k]);
      EntryRoundTrip(es[k]);
    }
  }

  /** Opening a sealed table, wherever it sits in a file, gives back exactly the entries
      written, precisely when they obey the placement rules. */
  lemma SealedTableOpens(a: Aead, sort: Sorter, key: Bytes, vaultId: Bytes16, schema: u16, nonce: Bytes24,
                         es: seq<Entry>, pre: Bytes, post: Bytes, wrkEnd: nat, fileLen: nat)
    requires Lawful(a)
    requires SealTable(a, key, vaultId, schema, nonce, es).Ok?
    ensures var t := SealTable(a, key, vaultId, schema, nonce, es).value;
            OpenTable(a, sort, pre + (t + post), |pre|, |t|, key, vaultId, schema, wrkEnd, fileLen)
            == if WellPlaced(sort, es, wrkEnd, |pre| + |t|, fileLen) then Ok(es) else Err(Format)
  {
    hide TablePlaintext, PaddedLen, WellPlaced, OpenPlaintext, TableAad, Lawful;
    var pt, aad := TablePlaintext(es), TableAad(vaultId, schema);
    var t := SealTable(a, key, vaultId, schema, nonce, es).value;
    assert a.dec(key, nonce, a.enc(key, nonce, pt, aad), aad) == Some(pt)
           && |a.enc(key, nonce, pt, aad)| == |pt| + TAG_LEN by { LawfulAt(a, key, nonce, pt, aad); }
    assert (pre + (t + post))[|pre|..|pre| + |t|] == t;
    assert t[0..4] == U32(|t| - 4) && t[4..28] == nonce && t[28..] == a.enc(key, nonce, pt, aad);
    SealedPlaintextOpens(sort, es, wrkEnd, |pre| + |t|, fileLen);
  }

  lemma SealedPlaintextOpens(sort: Sorter, es: seq<Entry>, wrkEnd: nat, tableEnd: nat, fileLen: nat)
    requires |es| < TWO_32
    ensures OpenPlaintext(sort, TablePlaintext(es), wrkEnd, tableEnd, fileLen)
         == if WellPlaced(sort, es, wrkEnd, tableEnd, fileLen) then Ok(es) else Err(Format)
  {
    hide TablePlaintext, PaddedLen, WellPlaced, GoodBucket, EntryCount, EntriesOf, AllZero;
    PlaintextReads(es);
  }

  // ---- the writer's loop --------------------------------------------------------------

  /** `serialize_sealed_record_table_v2`, appending entry by entry and then the padding. */
  method SealRecordTable(a: Aead, key: Bytes, vaultId: Bytes16, schema: u16, nonce: Bytes24, entries: seq<Entry>)
    returns (r: Result<Bytes, CoreError>)
    ensures r == SealTable(a, key, vaultId, schema, nonce, entries)
  {
    hide PrintEntry, PrintEntries, Bucket, IsPow2;
    if schema != Header.SCHEMA_V2 || |entries| >= TWO_32 { return Err(Format); }
    BucketIsLeastPower(|entries|);
    var plaintext: Bytes := U32(|entries|);
    assert entries[0..] == entries;
    for i := 0 to |entries|
      invariant forall k :: 0 <= k < i ==> LegalKind(entries[k].kind)
      invariant plaintext + PrintEntries(entries[i..]) == U32(|entries|) + PrintEntries(entries)
    {
      if !LegalKind(entries[i].kind) {
        assert entries[i] in entries;
        return Err(Format);
      }
      PrintedFirst(entries, i);
      assert (plaintext + PrintEntry(entries[i])) + PrintEntries(entries[i + 1..])
          == plaintext + (PrintEntry(entries[i]) + PrintEntries(entries[i + 1..]));
      plaintext := plaintext + PrintEntry(entries[i]);
    }
    PrintedNone();
    assert entries[|entries|..] == [] && plaintext + [] == plaintext;
    var pad := Zeros(ENTRY_LEN * (Bucket(|entries|) - |entries|));
    assert (U32(|entries|) + PrintEntries(entries)) + pad == U32(|entries|) + (PrintEntries(entries) + pad);
    var ct := a.enc(key, nonce, plaintext + pad, TableAad(vaultId, schema));
    if NONCE_LEN + |ct| >= TWO_32 { return Err(Format); }
    r := Ok(U32(NONCE_LEN + |ct|) + (nonce + ct));
  }

  lemma PrintedFirst(es: seq<Entry>, i: nat)
    requires i < |es|
    ensures PrintEntries(es[i..]) == PrintEntry(es[i]) + PrintEntries(es[i + 1..])
  {
    assert es[i..][1..] == es[i + 1..];
  }

  lemma PrintedNone()
    ensures PrintEntries([]) == []
  {}

  // ---- which accepted plaintexts the store writes ----------------------------------------

  lemma {:induction false} PrintedEntriesOf(pt: Bytes, n: nat)
    requires COUNT_LEN + ENTRY_LEN * n <= |pt|
    ensures PrintEntries(EntriesOf(pt, n)) == pt[COUNT_LEN..COUNT_LEN + ENTRY_LEN * n]
  {
    hide PrintEntry, ParseEntry;
    if n > 0 {
      var m := n - 1;
      PrintedEntriesOf(pt, m);
      EntryRoundTripBack(EntrySlice(pt, m));
      assert EntriesOf(pt, n) == EntriesOf(pt, m) + [ParseEntry(EntrySlice(pt, m))];
      PrintEntriesSnoc(EntriesOf(pt, m), ParseEntry(EntrySlice(pt, m)));
    }
  }

  lemma {:induction false} PrintEntriesSnoc(es: seq<Entry>, e: Entry)
    ensures PrintEntries(es + [e]) == PrintEntries(es) + PrintEntry(e)
  {
    hide PrintEntry;
    if es == [] {
      assert [] + [e] == [e] && [e][1..] == [];
      assert PrintEntry(e) + [] == PrintEntry(e);
    } else {
      assert (es + [e])[1..] == es[1..] + [e];
      PrintEntriesSnoc(es[1..], e);
    }
  }

  /** The reader takes every power-of-two bucket that is large enough, the writer only the least
      one: an accepted plaintext is the one that is written for its entries exactly when it
      has the least bucket. */
  lemma AcceptedPlaintextIsWrittenExactly(sort: Sorter, pt: Bytes, wrkEnd: nat, tableEnd: nat, fileLen: nat)
    requires OpenPlaintext(sort, pt, wrkEnd, tableEnd, fileLen).Ok?
    ensures var es := OpenPlaintext(sort, pt, wrkEnd, tableEnd, fileLen).value;
            && |es| < TWO_32 && PaddedLen(|es|) <= |pt|
            && (pt == TablePlaintext(es) <==> |pt| == PaddedLen(|es|))
  {
    hide PrintEntry, PrintEntries, ParseEntry, EntriesOf, IsPow2, Bucket, WellPlaced;
    var es := OpenPlaintext(sort, pt, wrkEnd, tableEnd, fileLen).value;
    var n := |es|;
    BucketIsLeastPower(n);
    PrintedEntriesOf(pt, n);
    var body := COUNT_LEN + ENTRY_LEN * n;
    assert pt[0..4] == U32(n);
    if |pt| == PaddedLen(n) {
      var pad := Zeros(ENTRY_LEN * (Bucket(n) - n));
      assert pt[body..] == pad;
      assert pt == pt[0..4] + (pt[4..body] + pt[body..]);
    }
  }

  // ---- the reader's loop --------------------------------------------------------------

  /** The entry loop of `open_sealed_record_table_v2` with its id set and extent list. */
  method ReadPlaintext(sort: Sorter, pt: Bytes, wrkEnd: nat, tableEnd: nat, fileLen: nat)
    returns (r: Result<seq<Entry>, CoreError>)
    ensures r == OpenPlaintext(sort, pt, wrkEnd, tableEnd, fileLen)
  {
    hide IsPow2, ParseEntry;
    if !GoodBucket(pt) { return Err(Format); }
    var count := EntryCount(pt);
    var entries: seq<Entry> := [];
    var ids: set<Bytes16> := {};
    var extents: seq<Extent> := [];
    var cursor := COUNT_LEN;
    ghost var all := EntriesOf(pt, count);
    for k := 0 to count
      invariant cursor == COUNT_LEN + ENTRY_LEN * k
      invariant entries == all[..k] && extents == Extents(entries)
      invariant forall e :: e in entries ==> Placed(e, wrkEnd, tableEnd, fileLen)
      invariant ids == set e | e in entries :: e.recordId
      invariant DistinctIds(entries)
    {
      assert pt[cursor..cursor + ENTRY_LEN] == EntrySlice(pt, k);
      var e := ParseEntry(pt[cursor..cursor + ENTRY_LEN]);
      assert e == all[k] && all[..k + 1] == all[..k] + [e];
      cursor := cursor + ENTRY_LEN;
      if !Placed(e, wrkEnd, tableEnd, fileLen) || e.recordId in ids {
        RejectedEntry(all, k, wrkEnd, tableEnd, fileLen);
        return Err(Format);
      }
      ids := ids + {e.recordId};
      extents := extents + [ExtentOf(e)];
      entries := entries + [e];
    }
    assert entries == all;
    if !AllZero(pt[cursor..]) { return Err(Format); }
    var sorted := sort(extents);
    if !NeighboursApart(sorted) { return Err(Format); }
    r := Ok(entries);
  }

  /** `open_sealed_record_table_v2`. */
  method OpenRecordTable(a: Aead, sort: Sorter, bytes: Bytes, offset: nat, len: nat, key: Bytes,
                         vaultId: Bytes16, schema: u16, wrkEnd: nat, fileLen: nat)
    returns (r: Result<seq<Entry>, CoreError>)
    ensures r == OpenTable(a, sort, bytes, offset, len, key, vaultId, schema, wrkEnd, fileLen)
  {
    hide OpenPlaintext;
    if schema != Header.SCHEMA_V2 || offset + len > |bytes| { return Err(Format); }
    var section :- ParseSection(bytes[offset..offset + len]);
    var plaintext := a.dec(key, section.0, section.1, TableAad(vaultId, schema));
    if plaintext.None? { return Err(Format); }
    r := ReadPlaintext(sort, plaintext.value, wrkEnd, offset + len, fileLen);
  }

  lemma RejectedEntry(all: seq<Entry>, k: nat, wrkEnd: nat, tableEnd: nat, fileLen: nat)
    requires k < |all|
    requires !Placed(all[k], wrkEnd, tableEnd, fileLen) || exists e :: e in all[..k] && e.recordId == all[k].recordId
    ensures !((forall e :: e in all ==> Placed(e, wrkEnd, tableEnd, fileLen)) && DistinctIds(all))
  {}
}
