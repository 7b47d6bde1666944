/** The 26-byte prefix and the TLV header of a vault file (vault/format.rs). */
module Header {
  import opened Wire
  import opened Errors
  import opened KdfProfile

  /** b"MEISSNER" */
  const MAGIC: Bytes := [0x4D, 0x45, 0x49, 0x53, 0x53, 0x4E, 0x45, 0x52]
  const FORMAT_VERSION: u16 := 1
  const HEADER_MIN_LEN: nat := 26
  const TAG_VAULT_ID: u16 := 0x0001
  const TAG_CREATED_AT: u16 := 0x0002
  const TAG_KDF_PROFILE: u16 := 0x0003
  const TAG_AEAD_PROFILE: u16 := 0x0004
  const TAG_PQC_PROFILE: u16 := 0x0005
  const TAG_SCHEMA_PROFILE: u16 := 0x0006
  const TAG_HEADER_NONCE: u16 := 0x0007
  const AEAD_XCHACHA20_POLY1305_V1: u16 := 0x0001
  const PQC_NONE: u16 := 0x0000
  const SCHEMA_V2: u16 := 0x0002

  datatype Profiles = Profiles(aead: u16, pqc: u16, kdf: u16, schema: u16)

  /** The one suite the four validated profile-id types admit. */
  const SUITE: Profiles := Profiles(AEAD_XCHACHA20_POLY1305_V1, PQC_NONE, KDF_ARGON2ID_V1, SCHEMA_V2)
  type ProfileSet = p: Profiles | p == SUITE witness SUITE

  datatype VaultHeader = VaultHeader(
    vaultId: Bytes16, createdAt: u64, formatVersion: u16, profiles: Profiles,
    kdfParams: KdfParams, headerNonce: Bytes24, profileSet: ProfileSet)

  // ---- prefix ---------------------------------------------------------------

  datatype Prefix = Prefix(headerLen: u32, tableLen: u32, bodyLen: u64)

  function PrintPrefix(p: Prefix): (b: Bytes)
    ensures |b| == HEADER_MIN_LEN
  {
    MAGIC + (U16(FORMAT_VERSION) + (U32(p.headerLen) + (U32(p.tableLen) + U64(p.bodyLen))))
  }

  function ReadPrefix(bytes: Bytes): (r: Result<(Prefix, Bytes), CoreError>)
    ensures r.Ok? ==> bytes == PrintPrefix(r.value.0) + r.value.1 && r.value.1 == bytes[HEADER_MIN_LEN..]
  {
    var (magic, r1) :- Take(bytes, 8, Format);
    var (version, r2) :- TakeU16(r1, Format);
    var (headerLen, r3) :- TakeU32(r2, Format);
    var (tableLen, r4) :- TakeU32(r3, Format);
    var (bodyLen, r5) :- TakeU64(r4, Format);
    if magic != MAGIC || version != FORMAT_VERSION then Err(Format)
    else
      var p := Prefix(headerLen, tableLen, bodyLen);
      assert bytes == PrintPrefix(p) + r5;
      Ok((p, r5))
  }

  lemma PrefixRoundTrip(p: Prefix, rest: Bytes)
    ensures ReadPrefix(PrintPrefix(p) + rest) == Ok((p, rest))
  {
    var t4 := U64(p.bodyLen) + rest;
    var t3 := U32(p.tableLen) + t4;
    var t2 := U32(p.headerLen) + t3;
    var t1 := U16(FORMAT_VERSION) + t2;
    assert PrintPrefix(p) + rest == MAGIC + t1;
    TakeAppend(MAGIC, t1, Format);
    TakeU16Append(FORMAT_VERSION, t2, Format);
    TakeU32Append(p.headerLen, t3, Format);
    TakeU32Append(p.tableLen, t4, Format);
    TakeU64Append(p.bodyLen, rest, Format);
  }

  // ---- TLVs ------------------------------------------------------------------

  datatype RawTlv = Tlv(tag: u16, flags: byte, value: Bytes)
  type Tlv = t: RawTlv | |t.value| < TWO_32 witness Tlv(0, 0, [])

  function PrintTlv(t: Tlv): Bytes {
    U16(t.tag) + ([t.flags] + (U32(|t.value|) + t.value))
  }

  function PrintTlvs(ts: seq<Tlv>): Bytes {
    if ts == [] then [] else PrintTlv(ts[0]) + PrintTlvs(ts[1..])
  }

  function NextTlv(rest: Bytes): (r: Result<(Tlv, Bytes), CoreError>)
    ensures r.Ok? ==> |r.value.1| < |rest|
  {
    var (tag, r1) :- TakeU16(rest, Format);
    var (flags, r2) :- TakeU8(r1, Format);
    var (len, r3) :- TakeU32(r2, Format);
    var (value, r4) :- Take(r3, len, Format);
    Ok((Tlv(tag, flags, value), r4))
  }

  lemma NextTlvIsPrinted(rest: Bytes)
    requires NextTlv(rest).Ok?
    ensures rest == PrintTlv(NextTlv(rest).value.0) + NextTlv(rest).value.1
  {
    hide U16, U32, TakeU16, TakeU8, TakeU32;
    var (tag, r1) := TakeU16(rest, Format).value;
    var (flags, r2) := TakeU8(r1, Format).value;
    var (len, r3) := TakeU32(r2, Format).value;
    var (value, r4) := Take(r3, len, Format).value;
    assert rest == U16(tag) + ([flags] + (U32(len) + (value + r4)));
  }

  lemma NextTlvRoundTrip(t: Tlv, rest: Bytes)
    ensures NextTlv(PrintTlv(t) + rest) == Ok((t, rest))
  {
    var t3 := t.value + rest;
    var t2 := U32(|t.value|) + t3;
    var t1 := [t.flags] + t2;
    assert PrintTlv(t) + rest == U16(t.tag) + t1;
    TakeU16Append(t.tag, t1, Format);
    TakeU8Append(t.flags, t2, Format);
    TakeU32Append(|t.value|, t3, Format);
    TakeAppend(t.value, rest, Format);
  }

  predicate Known(tag: u16) { TAG_VAULT_ID <= tag <= TAG_HEADER_NONCE }
  predicate Critical(flags: byte) { flags % 2 == 1 }
  predicate UnknownCritical(t: Tlv) { !Known(t.tag) && Critical(t.flags) }

  /** The optional fields the header loop fills in. */
  datatype HeaderFields = HeaderFields(
    vaultId: Option<Bytes16>, createdAt: Option<u64>, kdf: Option<KdfParams>, aead: Option<u16>,
    pqc: Option<u16>, schema: Option<u16>, nonce: Option<Bytes24>)

  const NO_HEADER_FIELDS: HeaderFields := HeaderFields(None, None, None, None, None, None, None)

  predicate Seen(f: HeaderFields, tag: u16) {
    || (tag == TAG_VAULT_ID && f.vaultId.Some?)
    || (tag == TAG_CREATED_AT && f.createdAt.Some?)
    || (tag == TAG_KDF_PROFILE && f.kdf.Some?)
    || (tag == TAG_AEAD_PROFILE && f.aead.Some?)
    || (tag == TAG_PQC_PROFILE && f.pqc.Some?)
    || (tag == TAG_SCHEMA_PROFILE && f.schema.Some?)
    || (tag == TAG_HEADER_NONCE && f.nonce.Some?)
  }

  /** Store the value of a known tag, provided it has the tag's length and form. */
  function Store(f: HeaderFields, tag: u16, v: Bytes): Result<HeaderFields, CoreError> {
    if tag == TAG_VAULT_ID && |v| == 16 then Ok(f.(vaultId := Some(v)))
    else if tag == TAG_CREATED_AT && |v| == 8 then Ok(f.(createdAt := Some(FromU64(v))))
    else if tag == TAG_KDF_PROFILE && ParseKdf(v).Ok? then Ok(f.(kdf := Some(ParseKdf(v).value)))
    else if tag == TAG_AEAD_PROFILE && |v| == 2 then Ok(f.(aead := Some(FromU16(v))))
    else if tag == TAG_PQC_PROFILE && |v| == 2 then Ok(f.(pqc := Some(FromU16(v))))
    else if tag == TAG_SCHEMA_PROFILE && |v| == 2 then Ok(f.(schema := Some(FromU16(v))))
    else if tag == TAG_HEADER_NONCE && |v| == 24 then Ok(f.(nonce := Some(v)))
    else Err(Format)
  }

  /** One turn of the header loop. */
  function StepTlv(f: HeaderFields, t: Tlv): Result<HeaderFields, CoreError> {
    if Known(t.tag) then
      if Seen(f, t.tag) then Err(Format) else Store(f, t.tag, t.value)
    else if Critical(t.flags) then Err(Format)
    else Ok(f)
  }

  function ReadTlvs(rest: Bytes, f: HeaderFields): Result<HeaderFields, CoreError>
    decreases |rest|
  {
    if rest == [] then Ok(f)
    else
      var (t, tail) :- NextTlv(rest);
      var next :- StepTlv(f, t);
      ReadTlvs(tail, next)
  }

  function BuildHeader(f: HeaderFields): Result<VaultHeader, CoreError> {
    if f.vaultId.None? || f.createdAt.None? || f.schema.None? || f.aead.None? || f.kdf.None? || f.nonce.None?
    then Err(Format)
    else
      // A missing PQC tag means profile 0.
      var pqc := if f.pqc.Some? then f.pqc.value else 0;
      var profiles := Profiles(f.aead.value, pqc, f.kdf.value.profileId, f.schema.value);
      if profiles != SUITE then Err(Format)
      else Ok(VaultHeader(f.vaultId.value, f.createdAt.value, FORMAT_VERSION, profiles,
                          f.kdf.value, f.nonce.value, SUITE))
  }

  /** The header a TLV section denotes. */
  function ReadSection(section: Bytes): Result<VaultHeader, CoreError> {
    var f :- ReadTlvs(section, NO_HEADER_FIELDS);
    BuildHeader(f)
  }

  /** `parse_header`. */
  function ParseHeader(bytes: Bytes): Result<VaultHeader, CoreError> {
    var (p, rest) :- ReadPrefix(bytes);
    if p.tableLen > p.bodyLen || p.headerLen + p.bodyLen != |rest| then Err(Format)
    else ReadSection(rest[..p.headerLen])
  }

  lemma ParseHeaderOfFile(section: Bytes, tableLen: u32, body: Bytes)
    requires |section| < TWO_32 && |body| < TWO_64 && tableLen <= |body|
    ensures ParseHeader(PrintPrefix(Prefix(|section|, tableLen, |body|)) + (section + body)) == ReadSection(section)
  {
    PrefixRoundTrip(Prefix(|section|, tableLen, |body|), section + body);
    assert (section + body)[..|section|] == section;
  }

  // ---- the loop reads a list of TLVs, in any order --------------------------

  function FoldTlvs(r: Result<HeaderFields, CoreError>, ts: seq<Tlv>): Result<HeaderFields, CoreError>
    decreases |ts|
  {
    if r.Err? || ts == [] then r else FoldTlvs(StepTlv(r.value, ts[0]), ts[1..])
  }

  lemma {:induction false} ReadPrintedTlvs(ts: seq<Tlv>, f: HeaderFields)
    ensures ReadTlvs(PrintTlvs(ts), f) == FoldTlvs(Ok(f), ts)
  {
    if ts != [] {
      NextTlvRoundTrip(ts[0], PrintTlvs(ts[1..]));
      var s := StepTlv(f, ts[0]);
      if s.Ok? { ReadPrintedTlvs(ts[1..], s.value); }
    }
  }

  /** Whatever the loop accepts is a list of TLVs. */
  lemma {:induction false} AcceptedSectionIsTlvs(rest: Bytes, f: HeaderFields) returns (ts: seq<Tlv>)
    requires ReadTlvs(rest, f).Ok?
    ensures rest == PrintTlvs(ts)
    decreases |rest|
  {
    if rest == [] {
      ts := [];
    } else {
      NextTlvIsPrinted(rest);
      var (t, tail) := NextTlv(rest).value;
      var more := AcceptedSectionIsTlvs(tail, StepTlv(f, t).value);
      ts := [t] + more;
      assert ts[1..] == more;
    }
  }

  /** The known TLVs with their flags dropped: all that `parse_header` may depend on. */
  function KnownTlvs(ts: seq<Tlv>): seq<Tlv> {
    if ts == [] then []
    else if Known(ts[0].tag) then [Tlv(ts[0].tag, 0, ts[0].value)] + KnownTlvs(ts[1..])
    else KnownTlvs(ts[1..])
  }

  predicate HasUnknownCritical(ts: seq<Tlv>) { exists t :: t in ts && UnknownCritical(t) }

  lemma {:induction false} FoldSeesKnownTlvs(f: HeaderFields, ts: seq<Tlv>)
    ensures FoldTlvs(Ok(f), ts) == if HasUnknownCritical(ts) then Err(Format) else FoldTlvs(Ok(f), KnownTlvs(ts))
    decreases |ts|
  {
    if ts != [] {
      var t := ts[0];
      assert ts == [t] + ts[1..];
      var s := StepTlv(f, t);
      assert HasUnknownCritical(ts) <==> UnknownCritical(t) || HasUnknownCritical(ts[1..]);
      if s.Ok? {
        FoldSeesKnownTlvs(s.value, ts[1..]);
      }
      if Known(t.tag) {
        var k := Tlv(t.tag, 0, t.value);
        assert StepTlv(f, k) == s;
        assert KnownTlvs(ts)[1..] == KnownTlvs(ts[1..]);
      }
    }
  }

  predicate AllKnown(ts: seq<Tlv>) { forall t :: t in ts ==> Known(t.tag) }

  lemma StepsCommute(f: HeaderFields, x: Tlv, y: Tlv)
    requires Known(x.tag) && Known(y.tag)
    ensures FoldTlvs(Ok(f), [x, y]) == FoldTlvs(Ok(f), [y, x])
  {
    TwoSteps(f, x, y);
    TwoSteps(f, y, x);
    var fx, fy := StepTlv(f, x), StepTlv(f, y);
    if fx.Ok? {
      StepSeen(f, x, y.tag);
      StoreOkIsAboutValue(fx.value, y.tag, y.value);
    }
    if fy.Ok? {
      StepSeen(f, y, x.tag);
      StoreOkIsAboutValue(fy.value, x.tag, x.value);
    }
    StoreOkIsAboutValue(f, x.tag, x.value);
    StoreOkIsAboutValue(f, y.tag, y.value);
    if fx.Ok? && fy.Ok? && x.tag != y.tag { StoresCommute(f, x, y); }
  }

  lemma TwoSteps(f: HeaderFields, x: Tlv, y: Tlv)
    ensures FoldTlvs(Ok(f), [x, y]) == if StepTlv(f, x).Ok? then StepTlv(StepTlv(f, x).value, y) else StepTlv(f, x)
  {
    assert [x, y][1..] == [y];
    var s := StepTlv(f, x);
    if s.Ok? {
      assert FoldTlvs(s, [y]) == FoldTlvs(StepTlv(s.value, y), []);
    }
  }

  lemma StepSeen(f: HeaderFields, x: Tlv, tag: u16)
    requires Known(x.tag) && Known(tag) && StepTlv(f, x).Ok?
    ensures Seen(StepTlv(f, x).value, tag) <==> Seen(f, tag) || tag == x.tag
  {}

  lemma StoresCommute(f: HeaderFields, x: Tlv, y: Tlv)
    requires Known(x.tag) && Known(y.tag) && x.tag != y.tag
    requires Store(f, x.tag, x.value).Ok? && Store(f, y.tag, y.value).Ok?
    ensures Store(Store(f, x.tag, x.value).value, y.tag, y.value)
         == Store(Store(f, y.tag, y.value).value, x.tag, x.value)
  {}

  lemma {:induction false} FoldAppend(r: Result<HeaderFields, CoreError>, xs: seq<Tlv>, ys: seq<Tlv>)
    ensures FoldTlvs(r, xs + ys) == FoldTlvs(FoldTlvs(r, xs), ys)
    decreases |xs|
  {
    if xs == [] {
      assert xs + ys == ys;
    } else if r.Ok? {
      assert (xs + ys)[1..] == xs[1..] + ys;
      FoldAppend(StepTlv(r.value, xs[0]), xs[1..], ys);
    }
  }

  /** Bringing one known TLV to the front changes nothing. */
  lemma {:induction false} MoveToFront(r: Result<HeaderFields, CoreError>, xs: seq<Tlv>, t: Tlv)
    requires AllKnown(xs) && Known(t.tag)
    ensures FoldTlvs(r, xs + [t]) == FoldTlvs(r, [t] + xs)
    decreases |xs|
  {
    if xs == [] {
      assert xs + [t] == [t] + xs;
    } else if r.Ok? {
      var x, rest := xs[0], xs[1..];
      assert xs + [t] == [x] + (rest + [t]);
      assert [t] + xs == [t, x] + rest;
      assert [x, t] + rest == [x] + ([t] + rest);
      MoveToFront(StepTlv(r.value, x), rest, t);
      FoldAppend(r, [x, t], rest);
      FoldAppend(r, [t, x], rest);
      StepsCommute(r.value, x, t);
    }
  }

  /** Pulling the `i`-th known TLV out to the front changes nothing. */
  lemma PullToFront(r: Result<HeaderFields, CoreError>, ys: seq<Tlv>, i: nat)
    requires AllKnown(ys) && i < |ys|
    ensures FoldTlvs(r, ys) == FoldTlvs(r, [ys[i]] + (ys[..i] + ys[i + 1..]))
  {
    hide FoldTlvs;
    var x, before, after := ys[i], ys[..i], ys[i + 1..];
    assert ys == (before + [x]) + after;
    FoldAppend(r, before + [x], after);
    MoveToFront(r, before, x);
    FoldAppend(r, [x] + before, after);
    assert ([x] + before) + after == [x] + (before + after);
  }

  lemma RemoveKeepsMultiset(ys: seq<Tlv>, i: nat)
    requires i < |ys|
    ensures multiset(ys[..i] + ys[i + 1..]) == multiset(ys) - multiset{ys[i]}
  {
    assert ys == ys[..i] + ([ys[i]] + ys[i + 1..]);
  }

  /** Known TLVs can be read in any order. */
  lemma {:induction false} FoldIgnoresOrder(r: Result<HeaderFields, CoreError>, xs: seq<Tlv>, ys: seq<Tlv>)
    requires AllKnown(ys) && multiset(xs) == multiset(ys)
    ensures FoldTlvs(r, xs) == FoldTlvs(r, ys)
    decreases |xs|
  {
    hide FoldTlvs, AllKnown, StepTlv;
    if xs == [] {
      assert |multiset(ys)| == |ys|;
    } else {
      var i := IndexIn(xs[0], ys, multiset(xs));
      var others := ys[..i] + ys[i + 1..];
      TailKeepsMultiset(xs);
      RemoveKeepsMultiset(ys, i);
      OthersAreKnown(ys, i);
      PullToFront(r, ys, i);
      FoldFirst(r, xs);
      FoldFirst(r, [ys[i]] + others);
      assert ([ys[i]] + others)[1..] == others;
      FoldIgnoresOrder(if r.Ok? then StepTlv(r.value, xs[0]) else r, xs[1..], others);
    }
  }

  lemma IndexIn(x: Tlv, ys: seq<Tlv>, m: multiset<Tlv>) returns (i: nat)
    requires m == multiset(ys) && x in m
    ensures i < |ys| && ys[i] == x
  {
    i :| 0 <= i < |ys| && ys[i] == x;
  }

  lemma TailKeepsMultiset(xs: seq<Tlv>)
    requires xs != []
    ensures multiset(xs[1..]) == multiset(xs) - multiset{xs[0]}
  {
    assert xs == [xs[0]] + xs[1..];
  }

  lemma OthersAreKnown(ys: seq<Tlv>, i: nat)
    requires AllKnown(ys) && i < |ys|
    ensures AllKnown(ys[..i] + ys[i + 1..])
  {}

  lemma FoldFirst(r: Result<HeaderFields, CoreError>, xs: seq<Tlv>)
    requires xs != []
    ensures FoldTlvs(r, xs) == FoldTlvs(if r.Ok? then StepTlv(r.value, xs[0]) else r, xs[1..])
  {
    hide StepTlv;
    if r.Err? { FoldOfError(r, xs[1..]); }
  }

  lemma FoldOfError(r: Result<HeaderFields, CoreError>, xs: seq<Tlv>)
    requires r.Err?
    ensures FoldTlvs(r, xs) == r
  {}

  /** `parse_header` depends only on which values the known tags carry: sections whose
      known TLVs agree up to order, and which agree on holding an unknown critical TLV,
      give the same verdict and the same header, whatever unknown TLVs they hold. */
  lemma HeaderDependsOnKnownTags(ts: seq<Tlv>, us: seq<Tlv>, tableLen: u32, body: Bytes)
    requires multiset(KnownTlvs(ts)) == multiset(KnownTlvs(us))
    requires HasUnknownCritical(ts) == HasUnknownCritical(us)
    requires |PrintTlvs(ts)| < TWO_32 && |PrintTlvs(us)| < TWO_32 && |body| < TWO_64 && tableLen <= |body|
    ensures ParseHeader(PrintPrefix(Prefix(|PrintTlvs(ts)|, tableLen, |body|)) + (PrintTlvs(ts) + body))
         == ParseHeader(PrintPrefix(Prefix(|PrintTlvs(us)|, tableLen, |body|)) + (PrintTlvs(us) + body))
  {
    ParseHeaderOfFile(PrintTlvs(ts), tableLen, body);
    ParseHeaderOfFile(PrintTlvs(us), tableLen, body);
    ReadPrintedTlvs(ts, NO_HEADER_FIELDS);
    ReadPrintedTlvs(us, NO_HEADER_FIELDS);
    FoldSeesKnownTlvs(NO_HEADER_FIELDS, ts);
    FoldSeesKnownTlvs(NO_HEADER_FIELDS, us);
    KnownTlvsAreKnown(us);
    FoldIgnoresOrder(Ok(NO_HEADER_FIELDS), KnownTlvs(ts), KnownTlvs(us));
  }

  lemma KnownTlvsAreKnown(ts: seq<Tlv>)
    ensures AllKnown(KnownTlvs(ts))
  {}

  // ---- exactly which TLV lists are accepted ----------------------------------

  predicate GoodValue(t: Tlv) { Store(NO_HEADER_FIELDS, t.tag, t.value).Ok? }

  predicate DistinctTags(ts: seq<Tlv>) {
    forall i, j :: 0 <= i < j < |ts| ==> ts[i].tag != ts[j].tag
  }

  lemma StoreOkIsAboutValue(f: HeaderFields, tag: u16, v: Bytes)
    ensures Store(f, tag, v).Ok? <==> Store(NO_HEADER_FIELDS, tag, v).Ok?
  {}

  lemma StepSucceedsExactly(f: HeaderFields, t: Tlv)
    requires Known(t.tag)
    ensures StepTlv(f, t).Ok? <==> !Seen(f, t.tag) && GoodValue(t)
  {
    hide Seen;
    StoreOkIsAboutValue(f, t.tag, t.value);
  }

  lemma DistinctTagsBase()
    ensures DistinctTags([])
  {}

  lemma {:induction false} FoldAcceptsExactly(f: HeaderFields, ts: seq<Tlv>)
    requires AllKnown(ts)
    ensures FoldTlvs(Ok(f), ts).Ok? <==>
              && (forall t :: t in ts ==> GoodValue(t) && !Seen(f, t.tag))
              && DistinctTags(ts)
    decreases |ts|
  {
    hide StepTlv, Seen, GoodValue, DistinctTags;
    DistinctTagsBase();
    if ts != [] {
      var t, rest := ts[0], ts[1..];
      assert ts == [t] + rest;
      StepSucceedsExactly(f, t);
      var s := StepTlv(f, t);
      if s.Ok? {
        FoldAcceptsExactly(s.value, rest);
        forall u | u in rest ensures Seen(s.value, u.tag) <==> Seen(f, u.tag) || u.tag == t.tag {
          StepSeen(f, t, u.tag);
        }
        DistinctCons(ts);
      } else {
        assert t in ts;
      }
    }
  }

  lemma DistinctCons(ts: seq<Tlv>)
    requires ts != []
    ensures DistinctTags(ts) <==> DistinctTags(ts[1..]) && forall u :: u in ts[1..] ==> u.tag != ts[0].tag
  {
    var rest := ts[1..];
    assert forall i :: 0 <= i < |rest| ==> rest[i] == ts[i + 1];
    if DistinctTags(rest) && forall u :: u in rest ==> u.tag != ts[0].tag {
      forall i, j | 0 <= i < j < |ts| ensures ts[i].tag != ts[j].tag {
        assert ts[j] == rest[j - 1];
        if i > 0 { assert ts[i] == rest[i - 1]; }
      }
    }
    if DistinctTags(ts) {
      forall u | u in rest ensures u.tag != ts[0].tag {
        var i :| 0 <= i < |rest| && rest[i] == u;
        assert ts[i + 1] == u;
      }
    }
  }

  /** A repeated known tag, an unknown critical tag or a malformed known value is always
      rejected, and nothing else makes the loop fail. */
  lemma LoopRejectsExactly(ts: seq<Tlv>)
    ensures ReadTlvs(PrintTlvs(ts), NO_HEADER_FIELDS).Err? <==>
              || HasUnknownCritical(ts)
              || !DistinctTags(KnownTlvs(ts))
              || exists t :: t in KnownTlvs(ts) && !GoodValue(t)
  {
    ReadPrintedTlvs(ts, NO_HEADER_FIELDS);
    FoldSeesKnownTlvs(NO_HEADER_FIELDS, ts);
    KnownTlvsAreKnown(ts);
    FoldAcceptsExactly(NO_HEADER_FIELDS, KnownTlvs(ts));
  }

  // ---- round trip --------------------------------------------------------------

  function HeaderTlvs(h: VaultHeader, kdf: Bytes): seq<Tlv>
    requires |kdf| < TWO_32
  {
    [Tlv(TAG_VAULT_ID, 1, h.vaultId), Tlv(TAG_CREATED_AT, 1, U64(h.createdAt)), Tlv(TAG_KDF_PROFILE, 1, kdf),
     Tlv(TAG_AEAD_PROFILE, 1, U16(h.profileSet.aead)), Tlv(TAG_PQC_PROFILE, 0, U16(h.profileSet.pqc)),
     Tlv(TAG_SCHEMA_PROFILE, 1, U16(h.profileSet.schema)), Tlv(TAG_HEADER_NONCE, 1, h.headerNonce)]
  }

  function SerializeHeader(h: VaultHeader): Result<Bytes, CoreError> {
    if h.formatVersion != FORMAT_VERSION || h.profiles != h.profileSet || h.profiles.kdf != h.kdfParams.profileId
    then Err(Format)
    else
      var kdf :- SerializeKdf(h.kdfParams);
      Ok(PrintTlvs(HeaderTlvs(h, kdf)))
  }

  lemma FoldSteps(f: HeaderFields, ts: seq<Tlv>)
    requires ts != [] && StepTlv(f, ts[0]).Ok?
    ensures FoldTlvs(Ok(f), ts) == FoldTlvs(Ok(StepTlv(f, ts[0]).value), ts[1..])
  {}

  /** `parse_header` inverts `serialize_header` inside any well-framed file. */
  lemma HeaderRoundTrip(h: VaultHeader, tableLen: u32, body: Bytes)
    requires SerializeHeader(h).Ok?
    requires |body| < TWO_64 && tableLen <= |body|
    ensures ReadSection(SerializeHeader(h).value) == Ok(h)
    ensures var section := SerializeHeader(h).value;
            && |section| < 200
            && ParseHeader(PrintPrefix(Prefix(|section|, tableLen, |body|)) + (section + body)) == Ok(h)
  {
    hide ParseHeader, PrintTlvs, HeaderTlvs, FoldTlvs, ReadTlvs, PrintPrefix;
    var kdf := SerializeKdf(h.kdfParams).value;
    KdfRoundTrip(h.kdfParams);
    var ts := HeaderTlvs(h, kdf);
    HeaderSectionLength(h, kdf);
    ReadPrintedTlvs(ts, NO_HEADER_FIELDS);
    FoldHeaderTlvs(h, kdf);
    var section := PrintTlvs(ts);
    ParseHeaderOfFile(section, tableLen, body);
  }

  lemma HeaderSectionLength(h: VaultHeader, kdf: Bytes)
    requires |kdf| == 44
    ensures |PrintTlvs(HeaderTlvs(h, kdf))| == 147
  {
    var ts := HeaderTlvs(h, kdf);
    PrintTlvsLength(ts[6..]);
    PrintTlvsLength(ts[5..]);
    PrintTlvsLength(ts[4..]);
    PrintTlvsLength(ts[3..]);
    PrintTlvsLength(ts[2..]);
    PrintTlvsLength(ts[1..]);
    PrintTlvsLength(ts);
  }

  lemma PrintTlvsLength(ts: seq<Tlv>)
    requires ts != []
    ensures |PrintTlvs(ts)| == 7 + |ts[0].value| + |PrintTlvs(ts[1..])|
  {}

  lemma FoldHeaderTlvs(h: VaultHeader, kdf: Bytes)
    requires |kdf| < TWO_32 && ParseKdf(kdf) == Ok(h.kdfParams)
    ensures FoldTlvs(Ok(NO_HEADER_FIELDS), HeaderTlvs(h, kdf))
         == Ok(HeaderFields(Some(h.vaultId), Some(h.createdAt), Some(h.kdfParams), Some(h.profileSet.aead),
                      Some(h.profileSet.pqc), Some(h.profileSet.schema), Some(h.headerNonce)))
  {
    hide ParseKdf;
    var ts := HeaderTlvs(h, kdf);
    var f1 := NO_HEADER_FIELDS.(vaultId := Some(h.vaultId));
    var f2 := f1.(createdAt := Some(h.createdAt));
    var f3 := f2.(kdf := Some(h.kdfParams));
    var f4 := f3.(aead := Some(h.profileSet.aead));
    var f5 := f4.(pqc := Some(h.profileSet.pqc));
    var f6 := f5.(schema := Some(h.profileSet.schema));
    FoldSteps(NO_HEADER_FIELDS, ts);
    FoldSteps(f1, ts[1..]);
    FoldSteps(f2, ts[2..]);
    FoldSteps(f3, ts[3..]);
    FoldSteps(f4, ts[4..]);
    FoldSteps(f5, ts[5..]);
    FoldSteps(f6, ts[6..]);
  }

  // ---- the parser itself --------------------------------------------------------

  /** The duplicate bitmask, as the set of tags whose bit is set, has exactly the tags
      whose fields are filled in. */
  predicate Tracks(seen: set<u16>, f: HeaderFields) {
    forall u :: u in seen <==> Known(u) && Seen(f, u)
  }

  /** The bounds-checked reads of one turn of the header loop. */
  method TlvAt(bytes: Bytes, cursor: nat, headerEnd: nat) returns (r: Result<Tlv, CoreError>)
    requires cursor < headerEnd <= |bytes|
    ensures r.Err? ==> r == Err(Format) && NextTlv(bytes[cursor..headerEnd]) == Err(Format)
    ensures r.Ok? ==> var n := cursor + 7 + |r.value.value|;
                      n <= headerEnd && NextTlv(bytes[cursor..headerEnd]) == Ok((r.value, bytes[n..headerEnd]))
  {
    ghost var rest := bytes[cursor..headerEnd];
    if headerEnd - cursor < 7 {
      return Err(Format);
    }
    var tag := FromU16(bytes[cursor..cursor + 2]);
    var flags := bytes[cursor + 2];
    var len := FromU32(bytes[cursor + 3..cursor + 7]);
    var start := cursor + 7;
    assert rest == U16(tag) + ([flags] + (U32(len) + bytes[start..headerEnd]));
    TakeU16Append(tag, [flags] + (U32(len) + bytes[start..headerEnd]), Format);
    TakeU8Append(flags, U32(len) + bytes[start..headerEnd], Format);
    TakeU32Append(len, bytes[start..headerEnd], Format);
    if start + len > headerEnd {
      return Err(Format);
    }
    TakeAppend(bytes[start..start + len], bytes[start + len..headerEnd], Format);
    assert bytes[start..headerEnd] == bytes[start..start + len] + bytes[start + len..headerEnd];
    r := Ok(Tlv(tag, flags, bytes[start..start + len]));
  }

  /** The `match tag` of the loop, with the bitmask deciding what is a duplicate. */
  method HeaderTurn(fields: HeaderFields, seen: set<u16>, t: Tlv)
    returns (r: Result<(HeaderFields, set<u16>), CoreError>)
    requires Tracks(seen, fields)
    ensures r.Err? ==> StepTlv(fields, t) == Err(Format)
    ensures r.Ok? ==> StepTlv(fields, t) == Ok(r.value.0) && Tracks(r.value.1, r.value.0)
  {
    if Known(t.tag) {
      if t.tag in seen { return Err(Format); }
      var stored :- Store(fields, t.tag, t.value);
      forall u | Known(u) ensures u in seen + {t.tag} <==> Seen(stored, u) {
        StepSeen(fields, t, u);
      }
      r := Ok((stored, seen + {t.tag}));
    } else if Critical(t.flags) {
      r := Err(Format);
    } else {
      r := Ok((fields, seen));
    }
  }

  /** The cursor loop of `parse_header` over the TLVs, with its duplicate bitmask. */
  method ReadHeaderFields(bytes: Bytes, headerEnd: nat) returns (r: Result<HeaderFields, CoreError>)
    requires HEADER_MIN_LEN <= headerEnd <= |bytes|
    ensures r == ReadTlvs(bytes[HEADER_MIN_LEN..headerEnd], NO_HEADER_FIELDS)
  {
    hide NextTlv, StepTlv;
    var fields := NO_HEADER_FIELDS;
    var seen: set<u16> := {};
    var cursor := HEADER_MIN_LEN;
    while cursor < headerEnd
      invariant HEADER_MIN_LEN <= cursor <= headerEnd
      invariant Tracks(seen, fields)
      invariant ReadTlvs(bytes[cursor..headerEnd], fields)
             == ReadTlvs(bytes[HEADER_MIN_LEN..headerEnd], NO_HEADER_FIELDS)
    {
      var t :- TlvAt(bytes, cursor, headerEnd);
      var turn := HeaderTurn(fields, seen, t);
      if turn.Err? { return Err(Format); }
      fields, seen := turn.value.0, turn.value.1;
      cursor := cursor + 7 + |t.value|;
    }
    r := Ok(fields);
  }

  /** `parse_header`. */
  method ParseHeaderBytes(bytes: Bytes) returns (r: Result<VaultHeader, CoreError>)
    ensures r == ParseHeader(bytes)
  {
    hide ReadTlvs, BuildHeader, ReadPrefix, PrintPrefix;
    var prefix :- ReadPrefix(bytes);
    var p := prefix.0;
    var headerEnd := HEADER_MIN_LEN + p.headerLen;
    var fileEnd := headerEnd + p.bodyLen;
    if p.tableLen > p.bodyLen || fileEnd > |bytes| { return Err(Format); }
    assert prefix.1[..p.headerLen] == bytes[HEADER_MIN_LEN..headerEnd];
    // The code runs the loop first; which of two errors is reported is not modelled.
    if fileEnd != |bytes| { return Err(Format); }
    var fields :- ReadHeaderFields(bytes, headerEnd);
    r := BuildHeader(fields);
  }
}
