/** The `.msexp` container and the item set inside it (export.rs). */
module ExportBundle {
  import opened Wire
  import opened Errors
  import opened ItemPayload

  const MSEXP_MAGIC: Bytes := [0x4D, 0x53, 0x45, 0x58, 0x50, 0x01, 0, 0]
  const MSEXP_VERSION_V1: u16 := 1
  const MAX_EXPORT_ITEM_COUNT: nat := 4096
  const MIN_BUNDLE_LEN: nat := 8 + 2 + 16 + 4 + 24 + 4

  // ---- the outer framing ---------------------------------------------------------------------

  datatype Bundle = Bundle(version: u16, vaultId: Bytes16, kdf: Bytes, nonce: Bytes24, ciphertext: Bytes)

  /** `serialize_bundle`. */
  function SerializeBundle(b: Bundle): Result<Bytes, CoreError> {
    if |b.kdf| >= TWO_32 || |b.ciphertext| >= TWO_32 then Err(Format)
    else
      Ok(MSEXP_MAGIC + (U16(MSEXP_VERSION_V1) + (b.vaultId + (U32(|b.kdf|) + (b.kdf
         + (b.nonce + (U32(|b.ciphertext|) + b.ciphertext)))))))
  }

  /** `parse_bundle`. */
  function ParseBundle(bytes: Bytes): Result<Bundle, CoreError> {
    if |bytes| < MIN_BUNDLE_LEN then Err(Format)
    else
      var (magic, r1) :- Take(bytes, 8, Format);
      if magic != MSEXP_MAGIC then Err(Format)
      else
        var (version, r2) :- TakeU16(r1, Format);
        if version != MSEXP_VERSION_V1 then Err(Format)
        else
          var (vaultId, r3) :- Take(r2, 16, Format);
          var (kdfLen, r4) :- TakeU32(r3, Format);
          var (kdf, r5) :- Take(r4, kdfLen, Format);
          var (nonce, r6) :- Take(r5, 24, Format);
          var (ciphertextLen, r7) :- TakeU32(r6, Format);
          if ciphertextLen != |r7| then Err(Format)
          else Ok(Bundle(version, vaultId, kdf, nonce, r7))
  }

  /** Every bundle that is written is read back. */
  lemma BundleRoundTrip(b: Bundle)
    requires b.version == MSEXP_VERSION_V1 && SerializeBundle(b).Ok?
    ensures ParseBundle(SerializeBundle(b).value) == Ok(b)
  {
    hide Le, UnLe, Pow256;
    var t7 := U32(|b.ciphertext|) + b.ciphertext;
    var t6 := b.nonce + t7;
    var t5 := b.kdf + t6;
    var t4 := U32(|b.kdf|) + t5;
    var t3 := b.vaultId + t4;
    var t2 := U16(MSEXP_VERSION_V1) + t3;
    TakeAppend(MSEXP_MAGIC, t2, Format);
    TakeU16Append(MSEXP_VERSION_V1, t3, Format);
    TakeAppend(b.vaultId, t4, Format);
    TakeU32Append(|b.kdf|, t5, Format);
    TakeAppend(b.kdf, t6, Format);
    TakeAppend(b.nonce, t7, Format);
    TakeU32Append(|b.ciphertext|, b.ciphertext, Format);
  }

  /** Every accepted byte string is the one that is written for what was read: no trailing
      bytes, no alternative encoding. */
  lemma AcceptedBundleIsCanonical(bytes: Bytes)
    requires ParseBundle(bytes).Ok?
    ensures ParseBundle(bytes).value.version == MSEXP_VERSION_V1
    ensures SerializeBundle(ParseBundle(bytes).value) == Ok(bytes)
  {
    hide Le, UnLe, Pow256;
  }

  /** `export_aad`. */
  function ExportAad(vaultId: Bytes16, version: u16): (aad: Bytes)
    ensures |aad| == 26
  {
    vaultId + (MSEXP_MAGIC + U16(version))
  }

  lemma ExportAadIsInjective(a: Bytes16, v: u16, b: Bytes16, w: u16)
    requires ExportAad(a, v) == ExportAad(b, w)
    ensures a == b && v == w
  {
    assert a == ExportAad(a, v)[..16] && b == ExportAad(b, w)[..16];
    assert U16(v) == ExportAad(a, v)[24..] && U16(w) == ExportAad(b, w)[24..];
  }

  // ---- the item set -------------------------------------------------------------------------------

  predicate AllEncodable(items: seq<PlainItem>) { forall i :: i in items ==> Encodable(i) }

  function PrintItems(items: seq<PlainItem>): Bytes
    requires AllEncodable(items)
  {
    if items == [] then [] else PrintItem(items[0]) + PrintItems(items[1..])
  }

  function PrintItemSet(items: seq<PlainItem>): Bytes
    requires AllEncodable(items) && |items| < TWO_32
  {
    U32(|items|) + PrintItems(items)
  }

  function TakeItems(s: Bytes, count: nat): (r: Result<(seq<PlainItem>, Bytes), CoreError>)
    ensures r.Ok? ==> |r.value.0| == count
    decreases count
  {
    if count == 0 then Ok(([], s))
    else
      var (item, r1) :- TakeItem(s, EXPORT_LIMITS);
      var (items, r2) :- TakeItems(r1, count - 1);
      Ok(([item] + items, r2))
  }

  /** `deserialize_item_set`. */
  function DeserializeItemSet(bytes: Bytes): Result<seq<PlainItem>, CoreError> {
    var (count, r1) :- TakeU32(bytes, Format);
    if count > MAX_EXPORT_ITEM_COUNT then Err(Format)
    else
      var (items, rest) :- TakeItems(r1, count);
      if rest != [] then Err(Format) else Ok(items)
  }

  predicate AllWithin(items: seq<PlainItem>, lim: Limits) { forall i :: i in items ==> Within(i, lim) }

  lemma TakeItemsTurn(s: Bytes, count: nat)
    requires count > 0
    ensures var t := TakeItem(s, EXPORT_LIMITS);
            TakeItems(s, count) == if t.Err? then Err(t.error)
                                   else FrontRead([t.value.0], TakeItems(t.value.1, count - 1))
  {}

  lemma TakeNoItems(s: Bytes)
    ensures TakeItems(s, 0) == Ok(([], s))
  {}

  lemma {:induction false} TakePrintedItems(items: seq<PlainItem>, rest: Bytes)
    requires AllEncodable(items)
    ensures TakeItems(PrintItems(items) + rest, |items|)
         == if AllWithin(items, EXPORT_LIMITS) then Ok((items, rest)) else Err(Format)
  {
    hide TakeItem, TakeItems, PrintItem, Within, Encodable;
    if items == [] {
      assert PrintItems(items) + rest == rest;
      TakeNoItems(rest);
    } else {
      var head, others := items[0], items[1..];
      assert items == [head] + others;
      var tail := PrintItems(others) + rest;
      assert PrintItems(items) + rest == PrintItem(head) + tail;
      TakePrintedItem(head, tail, EXPORT_LIMITS);
      TakePrintedItems(others, rest);
      TakeItemsTurn(PrintItem(head) + tail, |items|);
    }
  }

  /** Reading a written item set returns it exactly when it has at most 4096 items, each with
      at most 64 tags; otherwise the whole set is rejected. */
  lemma ItemSetRoundTrip(items: seq<PlainItem>)
    requires AllEncodable(items) && |items| < TWO_32
    ensures DeserializeItemSet(PrintItemSet(items)) ==
              if |items| <= MAX_EXPORT_ITEM_COUNT && forall i :: i in items ==> |i.tags| <= 64
              then Ok(items) else Err(Format)
  {
    hide TakeItems, PrintItems;
    TakeU32Append(|items|, PrintItems(items), Format);
    assert PrintItems(items) + [] == PrintItems(items);
    TakePrintedItems(items, []);
    assert AllWithin(items, EXPORT_LIMITS) <==> forall i :: i in items ==> |i.tags| <= 64 by {
      forall i | i in items ensures Within(i, EXPORT_LIMITS) <==> |i.tags| <= 64 { assert Encodable(i); }
    }
  }

  lemma {:induction false} TakenItemsArePrinted(s: Bytes, count: nat)
    requires TakeItems(s, count).Ok?
    ensures var (items, rest) := TakeItems(s, count).value;
            AllEncodable(items) && AllWithin(items, EXPORT_LIMITS) && s == PrintItems(items) + rest
    decreases count
  {
    hide TakeItem, PrintItem, Within, Encodable;
    if count > 0 {
      TakenItemIsPrinted(s, EXPORT_LIMITS);
      var (item, r1) := TakeItem(s, EXPORT_LIMITS).value;
      TakenItemsArePrinted(r1, count - 1);
      var (others, r2) := TakeItems(r1, count - 1).value;
      var items := [item] + others;
      assert items[1..] == others;
      assert s == (PrintItem(item) + PrintItems(others)) + r2;
    }
  }

  /** Every accepted item set is the one that is written for what was read. */
  lemma AcceptedItemSetIsCanonical(bytes: Bytes)
    requires DeserializeItemSet(bytes).Ok?
    ensures var items := DeserializeItemSet(bytes).value;
            && AllEncodable(items) && AllWithin(items, EXPORT_LIMITS) && |items| <= MAX_EXPORT_ITEM_COUNT
            && PrintItemSet(items) == bytes
  {
    hide TakeItems, PrintItems, AllWithin, AllEncodable;
    var (count, r1) := TakeU32(bytes, Format).value;
    TakenItemsArePrinted(r1, count);
    var items := DeserializeItemSet(bytes).value;
    assert PrintItems(items) + [] == PrintItems(items);
  }

  // ---- the cursor loop ---------------------------------------------------------------------------

  /** `deserialize_item_set`, with its cursor. */
  method DecodeItemSet(bytes: Bytes) returns (r: Result<seq<PlainItem>, CoreError>)
    ensures r == DeserializeItemSet(bytes)
  {
    hide TakeItem, TakeItems, TakeU32;
    assert bytes[0..] == bytes;
    var count :- U32At(bytes, 0);
    if count > MAX_EXPORT_ITEM_COUNT { return Err(Format); }
    var items: seq<PlainItem> := [];
    var cursor := 4;
    ghost var whole := TakeItems(bytes[4..], count);
    FrontReadNone(whole);
    for k := 0 to count
      invariant cursor <= |bytes|
      invariant whole == FrontRead(items, TakeItems(bytes[cursor..], count - k))
    {
      TakeItemsTurn(bytes[cursor..], count - k);
      var item :- ItemAt(bytes, cursor, EXPORT_LIMITS);
      cursor := item.1;
      FrontReadMore(items, [item.0], TakeItems(bytes[cursor..], count - k - 1));
      items := items + [item.0];
    }
    TakeNoItems(bytes[cursor..]);
    assert items + [] == items;
    if cursor != |bytes| { return Err(Format); }
    r := Ok(items);
  }
}
