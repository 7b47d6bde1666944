/** The plaintext item codec (item/store.rs, item/model.rs); the export item set
    (export.rs) uses the same layout under other limits. */
module ItemPayload {
  import opened Wire
  import opened Errors
  import opened Crypto

  datatype ItemKind = Password | SeedPhrase | SshPrivateKey | ApiToken | SecureNote

  function KindToU16(k: ItemKind): u16 {
    match k
    case Password => 0x0001
    case SeedPhrase => 0x0002
    case SshPrivateKey => 0x0003
    case ApiToken => 0x0004
    case SecureNote => 0x0005
  }

  function KindFromU16(v: u16): (r: Result<ItemKind, CoreError>)
    ensures r.Ok? ==> KindToU16(r.value) == v
    ensures forall k :: KindToU16(k) == v ==> r == Ok(k)
  {
    match v
    case 0x0001 => Ok(Password)
    case 0x0002 => Ok(SeedPhrase)
    case 0x0003 => Ok(SshPrivateKey)
    case 0x0004 => Ok(ApiToken)
    case 0x0005 => Ok(SecureNote)
    case _ => Err(Format)
  }

  datatype PlainItem = PlainItem(kind: ItemKind, labelText: Text, tags: seq<Text>, secret: Bytes)

  /** The ceilings a reader enforces. */
  datatype Limits = Limits(labelLen: nat, tagCount: nat, tagLen: nat, secretLen: nat)

  const STORE_LIMITS: Limits := Limits(1024, 64, 256, 65_536)
  /** The bundle reader bounds only the number of tags; lengths are any u32. */
  const EXPORT_LIMITS: Limits := Limits(0xFFFF_FFFF, 64, 0xFFFF_FFFF, 0xFFFF_FFFF)

  predicate Within(item: PlainItem, lim: Limits) {
    && |item.labelText| <= lim.labelLen
    && |item.tags| <= lim.tagCount
    && (forall t :: t in item.tags ==> |t| <= lim.tagLen)
    && |item.secret| <= lim.secretLen
  }

  /** Every length fits the writer's u32 fields. */
  predicate Encodable(item: PlainItem) {
    && |item.labelText| < TWO_32
    && |item.tags| < TWO_32
    && (forall t :: t in item.tags ==> |t| < TWO_32)
    && |item.secret| < TWO_32
  }

  // ---- printing ----------------------------------------------------------------------

  function PrintField(b: Bytes): Bytes
    requires |b| < TWO_32
  {
    U32(|b|) + b
  }

  function PrintTags(tags: seq<Text>): Bytes
    requires forall t :: t in tags ==> |t| < TWO_32
  {
    if tags == [] then [] else PrintField(tags[0]) + PrintTags(tags[1..])
  }

  function PrintItem(item: PlainItem): Bytes
    requires Encodable(item)
  {
    U16(KindToU16(item.kind)) + (PrintField(item.labelText)
    + (U32(|item.tags|) + (PrintTags(item.tags) + PrintField(item.secret))))
  }

  /** `serialize_item_payload`. */
  function SerializePayload(item: PlainItem): Result<Bytes, CoreError> {
    if Encodable(item) then Ok(PrintItem(item)) else Err(Format)
  }

  // ---- parsing -----------------------------------------------------------------------

  function TakeField(s: Bytes, max: nat): (r: Result<(Bytes, Bytes), CoreError>)
    ensures r.Ok? ==> |r.value.0| < TWO_32 && |r.value.0| <= max && s == PrintField(r.value.0) + r.value.1
  {
    var (len, rest) :- TakeU32(s, Format);
    if len > max then Err(Format)
    else
      var (b, tail) :- Take(rest, len, Format);
      assert s == (U32(len) + b) + tail;
      Ok((b, tail))
  }

  function TakeText(s: Bytes, max: nat): (r: Result<(Text, Bytes), CoreError>)
    ensures r.Ok? ==> |r.value.0| < TWO_32 && |r.value.0| <= max && s == PrintField(r.value.0) + r.value.1
  {
    var (b, tail) :- TakeField(s, max);
    if ValidUtf8(b) then Ok((b, tail)) else Err(Format)
  }

  function TakeTags(s: Bytes, count: nat, max: nat): (r: Result<(seq<Text>, Bytes), CoreError>)
    ensures r.Ok? ==> |r.value.0| == count
    decreases count
  {
    if count == 0 then Ok(([], s))
    else
      var (t, r1) :- TakeText(s, max);
      var (ts, r2) :- TakeTags(r1, count - 1, max);
      Ok(([t] + ts, r2))
  }

  lemma {:induction false} TakenTagsArePrinted(s: Bytes, count: nat, max: nat)
    requires TakeTags(s, count, max).Ok?
    ensures var (tags, rest) := TakeTags(s, count, max).value;
            && (forall t :: t in tags ==> |t| < TWO_32 && |t| <= max)
            && s == PrintTags(tags) + rest
    decreases count
  {
    hide PrintField, ValidUtf8, TakeField, TakeText;
    if count > 0 {
      var (t, r1) := TakeText(s, max).value;
      TakenTagsArePrinted(r1, count - 1, max);
      var (ts, r2) := TakeTags(r1, count - 1, max).value;
      var tags := [t] + ts;
      assert tags[1..] == ts;
      assert s == (PrintField(t) + PrintTags(ts)) + r2;
    }
  }

  function TakeItem(s: Bytes, lim: Limits): Result<(PlainItem, Bytes), CoreError> {
    var (kindRaw, r1) :- TakeU16(s, Format);
    var kind :- KindFromU16(kindRaw);
    var (labelText, r2) :- TakeText(r1, lim.labelLen);
    var (tagCount, r3) :- TakeU32(r2, Format);
    if tagCount > lim.tagCount then Err(Format)
    else
      var (tags, r4) :- TakeTags(r3, tagCount, lim.tagLen);
      var (secret, r5) :- TakeField(r4, lim.secretLen);
      Ok((PlainItem(kind, labelText, tags, secret), r5))
  }

  /** Whatever is accepted obeys the limits and is the encoding of what is returned. */
  lemma TakenItemIsPrinted(s: Bytes, lim: Limits)
    requires TakeItem(s, lim).Ok?
    ensures var (item, rest) := TakeItem(s, lim).value;
            Encodable(item) && Within(item, lim) && s == PrintItem(item) + rest
  {
    hide PrintTags, TakeTags, TakeField, TakeText, PrintField, TakeU16, TakeU32, KindFromU16, KindToU16, ValidUtf8;
    var (kindRaw, r1) := TakeU16(s, Format).value;
    var kind := KindFromU16(kindRaw).value;
    var (labelText, r2) := TakeText(r1, lim.labelLen).value;
    var (tagCount, r3) := TakeU32(r2, Format).value;
    TakenTagsArePrinted(r3, tagCount, lim.tagLen);
    var (tags, r4) := TakeTags(r3, tagCount, lim.tagLen).value;
    var (secret, r5) := TakeField(r4, lim.secretLen).value;
    Regroup(U16(kindRaw), PrintField(labelText), U32(tagCount), PrintTags(tags), PrintField(secret), r5);
    assert KindToU16(kind) == kindRaw;
  }

  /** `deserialize_item_payload`. */
  function DeserializePayload(bytes: Bytes): Result<PlainItem, CoreError> {
    var (item, rest) :- TakeItem(bytes, STORE_LIMITS);
    if rest != [] then Err(Format) else Ok(item)
  }

  /** Every accepted byte string re-encodes to itself. */
  lemma AcceptedPayloadIsCanonical(bytes: Bytes)
    requires DeserializePayload(bytes).Ok?
    ensures var item := DeserializePayload(bytes).value;
            Within(item, STORE_LIMITS) && SerializePayload(item) == Ok(bytes)
  {
    hide TakeItem, PrintItem;
    TakenItemIsPrinted(bytes, STORE_LIMITS);
    var item := DeserializePayload(bytes).value;
    assert PrintItem(item) + [] == PrintItem(item);
  }

  // ---- the decoder inverts the encoder exactly within the limits ----------------------

  lemma TakePrintedField(b: Bytes, rest: Bytes, max: nat)
    requires |b| < TWO_32
    ensures TakeField(PrintField(b) + rest, max) == if |b| <= max then Ok((b, rest)) else Err(Format)
  {
    assert PrintField(b) + rest == U32(|b|) + (b + rest);
    TakeU32Append(|b|, b + rest, Format);
    TakeAppend(b, rest, Format);
  }

  lemma {:induction false} TakePrintedTags(tags: seq<Text>, rest: Bytes, max: nat)
    requires forall t :: t in tags ==> |t| < TWO_32
    ensures TakeTags(PrintTags(tags) + rest, |tags|, max)
         == if forall t :: t in tags ==> |t| <= max then Ok((tags, rest)) else Err(Format)
  {
    hide TakeField, TakeTags, PrintField, ValidUtf8;
    if tags == [] {
      assert PrintTags(tags) + rest == rest;
      TakeNoTags(rest, max);
    } else {
      var t, ts := tags[0], tags[1..];
      assert tags == [t] + ts;
      var tail := PrintTags(ts) + rest;
      assert PrintTags(tags) + rest == PrintField(t) + tail;
      TakePrintedField(t, tail, max);
      TakePrintedTags(ts, rest, max);
      TakeTagsTurn(PrintField(t) + tail, |tags|, max);
      assert (forall u :: u in tags ==> |u| <= max) <==> |t| <= max && forall u :: u in ts ==> |u| <= max;
    }
  }

  lemma TakePrintedItem(item: PlainItem, rest: Bytes, lim: Limits)
    requires Encodable(item)
    ensures TakeItem(PrintItem(item) + rest, lim) == if Within(item, lim) then Ok((item, rest)) else Err(Format)
  {
    hide PrintField, PrintTags, TakeTags, TakeField;
    var t4 := PrintField(item.secret) + rest;
    var t3 := PrintTags(item.tags) + t4;
    var t2 := U32(|item.tags|) + t3;
    var t1 := PrintField(item.labelText) + t2;
    assert PrintItem(item) + rest == U16(KindToU16(item.kind)) + t1;
    TakeU16Append(KindToU16(item.kind), t1, Format);
    TakePrintedField(item.labelText, t2, lim.labelLen);
    TakeU32Append(|item.tags|, t3, Format);
    TakePrintedTags(item.tags, t4, lim.tagLen);
    TakePrintedField(item.secret, rest, lim.secretLen);
  }

  /** Decoding an encoded item returns it exactly when it obeys the four ceilings that the
      reader enforces and the writer does not; otherwise the encoding is rejected. */
  lemma PayloadRoundTrip(item: PlainItem)
    requires Encodable(item)
    ensures DeserializePayload(PrintItem(item)) == if Within(item, STORE_LIMITS) then Ok(item) else Err(Format)
  {
    hide PrintItem, TakeItem;
    assert PrintItem(item) + [] == PrintItem(item);
    TakePrintedItem(item, [], STORE_LIMITS);
  }

  /** The encoding is injective, with or without the reader's ceilings. */
  lemma PayloadIsInjective(a: PlainItem, b: PlainItem)
    requires Encodable(a) && Encodable(b) && PrintItem(a) == PrintItem(b)
    ensures a == b
  {
    hide PrintItem, TakeItem;
    var lim := Limits(TWO_32, TWO_32, TWO_32, TWO_32);
    TakePrintedItem(a, [], lim);
    TakePrintedItem(b, [], lim);
  }

  // ---- the appending encoder -------------------------------------------------------------

  /** `serialize_item_payload`, appending field by field. */
  method WritePayload(item: PlainItem) returns (r: Result<Bytes, CoreError>)
    ensures r == SerializePayload(item)
  {
    hide PrintTags, PrintField, ValidUtf8;
    if |item.labelText| >= TWO_32 || |item.tags| >= TWO_32 { return Err(Format); }
    var head := U16(KindToU16(item.kind)) + (PrintField(item.labelText) + U32(|item.tags|));
    var written :- WriteTags(item.tags);
    if |item.secret| >= TWO_32 { return Err(Format); }
    var out := head + written + PrintField(item.secret);
    Regroup([], U16(KindToU16(item.kind)), PrintField(item.labelText), U32(|item.tags|), written,
            PrintField(item.secret));
    assert out == PrintItem(item);
    r := Ok(out);
  }

  /** The tag loop. */
  method WriteTags(tags: seq<Text>) returns (r: Result<Bytes, CoreError>)
    ensures r == if (forall t :: t in tags ==> |t| < TWO_32) then Ok(PrintTags(tags)) else Err(Format)
  {
    hide PrintField, ValidUtf8;
    var out: Bytes := [];
    assert tags[..0] == [];
    for i := 0 to |tags|
      invariant forall t :: t in tags[..i] ==> |t| < TWO_32
      invariant out == PrintTags(tags[..i])
    {
      if |tags[i]| >= TWO_32 { return Err(Format); }
      PrintTagsSnoc(tags[..i], tags[i]);
      assert tags[..i + 1] == tags[..i] + [tags[i]];
      out := out + PrintField(tags[i]);
    }
    assert tags[..|tags|] == tags;
    r := Ok(out);
  }

  lemma {:induction false} PrintTagsSnoc(tags: seq<Text>, t: Text)
    requires |t| < TWO_32 && forall u :: u in tags ==> |u| < TWO_32
    ensures PrintTags(tags + [t]) == PrintTags(tags) + PrintField(t)
  {
    hide PrintField, ValidUtf8;
    if tags == [] {
      assert [t][1..] == [] && PrintField(t) + [] == PrintField(t);
    } else {
      assert (tags + [t])[1..] == tags[1..] + [t];
      PrintTagsSnoc(tags[1..], t);
    }
  }

  // ---- the cursor-moving decoder --------------------------------------------------------

  /** `take_u32`. */
  method U32At(bytes: Bytes, cursor: nat) returns (r: Result<u32, CoreError>)
    requires cursor <= |bytes|
    ensures match TakeU32(bytes[cursor..], Format)
            case Err(e) => r == Err(e)
            case Ok((v, rest)) => r == Ok(v) && cursor + 4 <= |bytes| && bytes[cursor + 4..] == rest
  {
    if cursor + 4 > |bytes| { return Err(Format); }
    assert bytes[cursor..][..4] == bytes[cursor..cursor + 4];
    assert bytes[cursor..][4..] == bytes[cursor + 4..];
    r := Ok(FromU32(bytes[cursor..cursor + 4]));
  }

  /** `take_u32` followed by `take_bytes`, moving the cursor past one field. */
  method FieldAt(bytes: Bytes, cursor: nat, max: nat) returns (r: Result<(Bytes, nat), CoreError>)
    requires cursor <= |bytes|
    ensures match TakeField(bytes[cursor..], max)
            case Err(e) => r == Err(e)
            case Ok((b, rest)) =>
              r.Ok? && r.value.0 == b && cursor <= r.value.1 <= |bytes| && bytes[r.value.1..] == rest
  {
    var len :- U32At(bytes, cursor);
    if len > max { return Err(Format); }
    var start := cursor + 4;
    var end := start + len;
    if end > |bytes| { return Err(Format); }
    assert bytes[start..][..len] == bytes[start..end] && bytes[start..][len..] == bytes[end..];
    r := Ok((bytes[start..end], end));
  }

  /** One item at a cursor: the reads and the tag loop that `deserialize_item_payload` and
      `deserialize_item_set` share. */
  method ItemAt(bytes: Bytes, start: nat, lim: Limits) returns (r: Result<(PlainItem, nat), CoreError>)
    requires start <= |bytes|
    ensures match TakeItem(bytes[start..], lim)
            case Err(e) => r == Err(e)
            case Ok((item, rest)) =>
              r.Ok? && r.value.0 == item && start <= r.value.1 <= |bytes| && bytes[r.value.1..] == rest
  {
    hide TakeField, TakeTags, PrintField, PrintTags, ValidUtf8, TakeU32;
    if start + 2 > |bytes| { return Err(Format); }
    assert bytes[start..][..2] == bytes[start..start + 2] && bytes[start..][2..] == bytes[start + 2..];
    var kind :- KindFromU16(FromU16(bytes[start..start + 2]));
    var labelField :- FieldAt(bytes, start + 2, lim.labelLen);
    if !ValidUtf8(labelField.0) { return Err(Format); }
    var tagCount :- U32At(bytes, labelField.1);
    if tagCount > lim.tagCount { return Err(Format); }
    var tagLoop := DecodeTags(bytes, labelField.1 + 4, tagCount, lim.tagLen);
    var tags :- tagLoop;
    var secret :- FieldAt(bytes, tags.1, lim.secretLen);
    r := Ok((PlainItem(kind, labelField.0, tags.0, secret.0), secret.1));
  }

  /** `deserialize_item_payload`, with its cursor. */
  method DecodePayload(bytes: Bytes) returns (r: Result<PlainItem, CoreError>)
    ensures r == DeserializePayload(bytes)
  {
    hide TakeItem;
    assert bytes[0..] == bytes;
    var item :- ItemAt(bytes, 0, STORE_LIMITS);
    if item.1 != |bytes| { return Err(Format); }
    r := Ok(item.0);
  }

  method DecodeTags(bytes: Bytes, start: nat, tagCount: nat, max: nat) returns (r: Result<(seq<Text>, nat), CoreError>)
    requires start <= |bytes|
    ensures match TakeTags(bytes[start..], tagCount, max)
            case Err(e) => r == Err(e)
            case Ok((ts, rest)) =>
              r.Ok? && r.value.0 == ts && start <= r.value.1 <= |bytes| && bytes[r.value.1..] == rest
  {
    hide TakeField, TakeTags, PrintField, PrintTags, ValidUtf8;
    var tags: seq<Text> := [];
    var cursor := start;
    ghost var whole := TakeTags(bytes[start..], tagCount, max);
    FrontReadNone(whole);
    for k := 0 to tagCount
      invariant start <= cursor <= |bytes|
      invariant whole == FrontRead(tags, TakeTags(bytes[cursor..], tagCount - k, max))
    {
      TakeTagsTurn(bytes[cursor..], tagCount - k, max);
      var field :- FieldAt(bytes, cursor, max);
      if !ValidUtf8(field.0) { return Err(Format); }
      cursor := field.1;
      FrontReadMore(tags, [field.0], TakeTags(bytes[cursor..], tagCount - k - 1, max));
      tags := tags + [field.0];
    }
    TakeNoTags(bytes[cursor..], max);
    assert tags + [] == tags;
    r := Ok((tags, cursor));
  }

  lemma TakeNoTags(s: Bytes, max: nat)
    ensures TakeTags(s, 0, max) == Ok(([], s))
  {}

  lemma TakeTagsTurn(s: Bytes, count: nat, max: nat)
    requires count > 0
    ensures var f := TakeField(s, max);
            TakeTags(s, count, max) ==
              if f.Err? then Err(f.error)
              else if !ValidUtf8(f.value.0) then Err(Format)
              else FrontRead([f.value.0], TakeTags(f.value.1, count - 1, max))
  {}
}
