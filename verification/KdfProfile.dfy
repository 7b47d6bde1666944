/** The `TAG_KDF_PROFILE` value: a nested TLV list of Argon2id parameters. */
module KdfProfile {
  import opened Wire
  import opened Errors

  const KDF_ARGON2ID_V1: u16 := 0x0001
  const ARGON2_VERSION_0X13: u32 := 0x13
  const TAG_M_COST: u16 := 0x0101
  const TAG_T_COST: u16 := 0x0102
  const TAG_P_LANES: u16 := 0x0103
  const TAG_OUTPUT_LEN: u16 := 0x0104
  const TAG_VERSION: u16 := 0x0105
  const MIN_M_COST: u32 := 65_536
  const MAX_M_COST: u32 := 262_144
  const MIN_T_COST: u32 := 3
  const MAX_T_COST: u32 := 16
  const MIN_P_LANES: u32 := 4
  const MAX_P_LANES: u32 := 16

  datatype Argon2Params = Argon2Params(mCost: u32, tCost: u32, pLanes: u32, outputLen: nat)
  datatype KdfParams = KdfParams(profileId: u16, argon2: Argon2Params, version: u32)

  const CANONICAL: KdfParams :=
    KdfParams(KDF_ARGON2ID_V1, Argon2Params(65_536, 3, 4, 32), ARGON2_VERSION_0X13)

  predicate ValidArgon2(p: Argon2Params) {
    && p.mCost != 0 && p.tCost != 0 && p.pLanes != 0
    && p.outputLen == 32
    && MIN_M_COST <= p.mCost <= MAX_M_COST
    && MIN_T_COST <= p.tCost <= MAX_T_COST
    && MIN_P_LANES <= p.pLanes <= MAX_P_LANES
  }

  predicate Supported(p: KdfParams) {
    p.profileId == KDF_ARGON2ID_V1 && p.version == ARGON2_VERSION_0X13 && ValidArgon2(p.argon2)
  }

  type Param = (u16, Bytes)

  function PrintParam(tag: u16, value: Bytes): Bytes
    requires |value| < 0x1_0000
  {
    U16(tag) + (U16(|value|) + value)
  }

  function PrintParams(p: KdfParams): (b: Bytes)
    requires Supported(p)
    ensures |b| == 38
  {
    PrintParam(TAG_M_COST, U32(p.argon2.mCost))
    + (PrintParam(TAG_T_COST, U32(p.argon2.tCost))
       + (PrintParam(TAG_P_LANES, U32(p.argon2.pLanes))
          + (PrintParam(TAG_OUTPUT_LEN, U16(p.argon2.outputLen))
             + (PrintParam(TAG_VERSION, U32(p.version)) + []))))
  }

  function SerializeKdf(p: KdfParams): Result<Bytes, CoreError> {
    if !Supported(p) then Err(Format)
    else Ok(U16(p.profileId) + (U32(|PrintParams(p)|) + PrintParams(p)))
  }

  function NextParam(rest: Bytes): (r: Result<(u16, Bytes, Bytes), CoreError>)
    ensures r.Ok? ==> |r.value.2| < |rest|
  {
    var (tag, r1) :- TakeU16(rest, Format);
    var (len, r2) :- TakeU16(r1, Format);
    var (value, r3) :- Take(r2, len, Format);
    Ok((tag, value, r3))
  }

  /** The optional fields the parameter loop fills in. */
  datatype KdfFields = KdfFields(
    mCost: Option<u32>, tCost: Option<u32>, pLanes: Option<u32>,
    outputLen: Option<nat>, version: Option<u32>)

  const NO_KDF_FIELDS: KdfFields := KdfFields(None, None, None, None, None)

  /** One turn of the parameter loop: a known tag, not seen before, of the right width. */
  function StepParam(f: KdfFields, tag: u16, value: Bytes): Result<KdfFields, CoreError> {
    if tag == TAG_M_COST && f.mCost.None? && |value| == 4 then Ok(f.(mCost := Some(FromU32(value))))
    else if tag == TAG_T_COST && f.tCost.None? && |value| == 4 then Ok(f.(tCost := Some(FromU32(value))))
    else if tag == TAG_P_LANES && f.pLanes.None? && |value| == 4 then Ok(f.(pLanes := Some(FromU32(value))))
    else if tag == TAG_OUTPUT_LEN && f.outputLen.None? && |value| == 2 then
      Ok(f.(outputLen := Some(FromU16(value))))
    else if tag == TAG_VERSION && f.version.None? && |value| == 4 then Ok(f.(version := Some(FromU32(value))))
    else Err(Format)
  }

  function ReadParams(rest: Bytes, f: KdfFields): Result<KdfFields, CoreError>
    decreases |rest|
  {
    if rest == [] then Ok(f)
    else
      var (tag, value, tail) :- NextParam(rest);
      var next :- StepParam(f, tag, value);
      ReadParams(tail, next)
  }

  function BuildKdf(profileId: u16, f: KdfFields): Result<KdfParams, CoreError> {
    if f.mCost.None? || f.tCost.None? || f.pLanes.None? || f.outputLen.None? || f.version.None?
    then Err(Format)
    else
      var p := KdfParams(profileId, Argon2Params(f.mCost.value, f.tCost.value, f.pLanes.value, f.outputLen.value),
                         f.version.value);
      if Supported(p) then Ok(p) else Err(Format)
  }

  function ParseKdf(value: Bytes): (r: Result<KdfParams, CoreError>)
    ensures r.Ok? ==> Supported(r.value)
  {
    var (profileId, r1) :- TakeU16(value, Format);
    var (len, params) :- TakeU32(r1, Format);
    if profileId != KDF_ARGON2ID_V1 || len != |params| then Err(Format)
    else
      var f :- ReadParams(params, NO_KDF_FIELDS);
      BuildKdf(profileId, f)
  }

  lemma ReadParamsStep(tag: u16, value: Bytes, tail: Bytes, f: KdfFields)
    requires |value| < 0x1_0000
    requires StepParam(f, tag, value).Ok?
    ensures ReadParams(PrintParam(tag, value) + tail, f)
         == ReadParams(tail, StepParam(f, tag, value).value)
  {
    var rest := PrintParam(tag, value) + tail;
    assert rest == U16(tag) + (U16(|value|) + (value + tail));
    TakeU16Append(tag, U16(|value|) + (value + tail), Format);
    TakeU16Append(|value|, value + tail, Format);
    TakeAppend(value, tail, Format);
    assert NextParam(rest) == Ok((tag, value, tail));
  }

  lemma ReadNoParams(f: KdfFields)
    ensures ReadParams([], f) == Ok(f)
  {}

  /** `parse_kdf_profile_params` inverts `serialize_kdf_profile_params`. */
  lemma KdfRoundTrip(p: KdfParams)
    requires SerializeKdf(p).Ok?
    ensures ParseKdf(SerializeKdf(p).value) == Ok(p)
  {
    var a := p.argon2;
    var t := PrintParams(p);
    TakeU16Append(p.profileId, U32(|t|) + t, Format);
    TakeU32Append(|t|, t, Format);
    ReadPrintedParams(p);
  }

  lemma ReadPrintedParams(p: KdfParams)
    requires Supported(p)
    ensures ReadParams(PrintParams(p), NO_KDF_FIELDS)
         == Ok(KdfFields(Some(p.argon2.mCost), Some(p.argon2.tCost), Some(p.argon2.pLanes),
                      Some(p.argon2.outputLen), Some(p.version)))
  {
    hide ReadParams, PrintParam, Le, UnLe, Pow256;
    var a := p.argon2;
    var t5 := PrintParam(TAG_VERSION, U32(p.version)) + [];
    var t4 := PrintParam(TAG_OUTPUT_LEN, U16(a.outputLen)) + t5;
    var t3 := PrintParam(TAG_P_LANES, U32(a.pLanes)) + t4;
    var t2 := PrintParam(TAG_T_COST, U32(a.tCost)) + t3;
    var f1 := NO_KDF_FIELDS.(mCost := Some(a.mCost));
    var f2 := f1.(tCost := Some(a.tCost));
    var f3 := f2.(pLanes := Some(a.pLanes));
    var f4 := f3.(outputLen := Some(a.outputLen));
    ReadParamsStep(TAG_M_COST, U32(a.mCost), t2, NO_KDF_FIELDS);
    ReadParamsStep(TAG_T_COST, U32(a.tCost), t3, f1);
    ReadParamsStep(TAG_P_LANES, U32(a.pLanes), t4, f2);
    ReadParamsStep(TAG_OUTPUT_LEN, U16(a.outputLen), t5, f3);
    ReadParamsStep(TAG_VERSION, U32(p.version), [], f4);
    ReadNoParams(f4.(version := Some(p.version)));
  }

  /** `parse_kdf_profile_params`, with its cursor. */
  method ParseKdfProfileParams(value: Bytes) returns (r: Result<KdfParams, CoreError>)
    ensures r == ParseKdf(value)
  {
    hide NextParam, StepParam, BuildKdf, Supported, UnLe, Pow256;
    if |value| < 6 { return Err(Format); }
    assert value[2..][..4] == value[2..6] && value[2..][4..] == value[6..];
    var profileId := FromU16(value[0..2]);
    if profileId != KDF_ARGON2ID_V1 { return Err(Format); }
    var paramsEnd := 6 + FromU32(value[2..6]);
    if paramsEnd != |value| { return Err(Format); }

    var fields := NO_KDF_FIELDS;
    var cursor := 6;
    while cursor < paramsEnd
      invariant 6 <= cursor <= paramsEnd == |value|
      invariant ReadParams(value[cursor..], fields) == ReadParams(value[6..], NO_KDF_FIELDS)
    {
      var param :- ParamAt(value, cursor);
      fields :- StepParam(fields, param.0, param.1);
      cursor := cursor + 4 + |param.1|;
    }
    r := BuildKdf(profileId, fields);
  }

  /** The bounds-checked reads of one loop turn. */
  method ParamAt(value: Bytes, cursor: nat) returns (r: Result<(u16, Bytes), CoreError>)
    requires cursor < |value|
    ensures r.Err? ==> r == Err(Format) && NextParam(value[cursor..]) == Err(Format)
    ensures r.Ok? ==> var n := cursor + 4 + |r.value.1|;
                      n <= |value| && NextParam(value[cursor..]) == Ok((r.value.0, r.value.1, value[n..]))
  {
    if |value| - cursor < 4 { return Err(Format); }
    ghost var rest := value[cursor..];
    assert rest[..2] == value[cursor..cursor + 2];
    assert rest[2..][..2] == value[cursor + 2..cursor + 4];
    var tag := FromU16(value[cursor..cursor + 2]);
    var len := FromU16(value[cursor + 2..cursor + 4]);
    var start := cursor + 4;
    assert rest[2..][2..] == value[start..];
    if start + len > |value| { return Err(Format); }
    assert value[start..][..len] == value[start..start + len] && value[start..][len..] == value[start + len..];
    r := Ok((tag, value[start..start + len]));
  }
}
