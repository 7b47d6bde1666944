/** Byte strings, fixed-width little-endian integers and the cursor parser that
    the transfer, replay and device codecs share. */
module Wire {

  type byte = b: int | 0 <= b < 0x100
  type Bytes = seq<byte>
  type u16 = x: int | 0 <= x < 0x1_0000
  type u32 = x: int | 0 <= x < 0x1_0000_0000
  type u64 = x: int | 0 <= x < 0x1_0000_0000_0000_0000

  const TWO_32: int := 0x1_0000_0000
  const TWO_64: int := 0x1_0000_0000_0000_0000

  /** `[u8; 16]`, `[u8; 24]` and `[u8; 32]`. */
  type Bytes16 = s: Bytes | |s| == 16 witness seq(16, _ => 0)
  type Bytes24 = s: Bytes | |s| == 24 witness seq(24, _ => 0)
  type Bytes32 = s: Bytes | |s| == 32 witness seq(32, _ => 0)

  datatype Option<+T> = None | Some(value: T)

  datatype Result<+T, +E> = Ok(value: T) | Err(error: E) {
    predicate IsFailure() { Err? }
    function PropagateFailure<U>(): Result<U, E> requires Err? { Err(error) }
    function Extract(): T requires Ok? { value }
  }

  // ---- little-endian integers --------------------------------------------

  function Pow256(n: nat): (p: nat)
    ensures p >= 1
  {
    if n == 0 then 1 else 256 * Pow256(n - 1)
  }

  /** The `n` low-order bytes of `v`, least significant first. */
  function Le(v: nat, n: nat): (b: Bytes)
    ensures |b| == n
  {
    if n == 0 then [] else [v % 256] + Le(v / 256, n - 1)
  }

  function UnLe(b: Bytes): (v: nat)
    ensures v < Pow256(|b|)
  {
    if |b| == 0 then 0 else b[0] + 256 * UnLe(b[1..])
  }

  lemma {:induction false} UnLeOfLe(v: nat, n: nat)
    requires v < Pow256(n)
    ensures UnLe(Le(v, n)) == v
  {
    if n > 0 {
      assert v / 256 < Pow256(n - 1);
      UnLeOfLe(v / 256, n - 1);
      assert Le(v, n)[1..] == Le(v / 256, n - 1);
    }
  }

  lemma {:induction false} LeOfUnLe(b: Bytes)
    ensures Le(UnLe(b), |b|) == b
  {
    if |b| > 0 {
      LeOfUnLe(b[1..]);
      var v := UnLe(b);
      assert v / 256 == UnLe(b[1..]) && v % 256 == b[0];
      assert b == [b[0]] + b[1..];
    }
  }

  lemma PowerValues()
    ensures Pow256(1) == 0x100 && Pow256(2) == 0x1_0000
    ensures Pow256(4) == TWO_32 && Pow256(8) == TWO_64
  {
    assert Pow256(2) == 256 * Pow256(1);
    assert Pow256(3) == 256 * Pow256(2);
    assert Pow256(4) == 256 * Pow256(3);
    assert Pow256(5) == 256 * Pow256(4);
    assert Pow256(6) == 256 * Pow256(5);
    assert Pow256(7) == 256 * Pow256(6);
    assert Pow256(8) == 256 * Pow256(7);
  }

  function U16(v: u16): (b: Bytes)
    ensures |b| == 2 && UnLe(b) == v
  {
    PowerValues(); UnLeOfLe(v, 2); Le(v, 2)
  }

  function U32(v: u32): (b: Bytes)
    ensures |b| == 4 && UnLe(b) == v
  {
    PowerValues(); UnLeOfLe(v, 4); Le(v, 4)
  }

  function U64(v: u64): (b: Bytes)
    ensures |b| == 8 && UnLe(b) == v
  {
    PowerValues(); UnLeOfLe(v, 8); Le(v, 8)
  }

  function FromU16(b: Bytes): (v: u16)
    requires |b| == 2
    ensures U16(v) == b && v == UnLe(b)
  {
    PowerValues(); LeOfUnLe(b); UnLe(b)
  }

  function FromU32(b: Bytes): (v: u32)
    requires |b| == 4
    ensures U32(v) == b && v == UnLe(b)
  {
    PowerValues(); LeOfUnLe(b); UnLe(b)
  }

  function FromU64(b: Bytes): (v: u64)
    requires |b| == 8
    ensures U64(v) == b && v == UnLe(b)
  {
    PowerValues(); LeOfUnLe(b); UnLe(b)
  }

  function Zeros(n: nat): (b: Bytes)
    ensures |b| == n && forall i :: 0 <= i < n ==> b[i] == 0
  {
    seq(n, _ => 0)
  }

  /** `u32::try_from(len)`. */
  function TryU32<E>(n: nat, e: E): Result<u32, E> {
    if n < TWO_32 then Ok(n) else Err(e)
  }

  // ---- consuming the front of a byte string ------------------------------

  /** Split off the first `n` bytes, or fail with `e`. */
  function Take<E>(s: Bytes, n: nat, e: E): (r: Result<(Bytes, Bytes), E>)
    ensures r.Ok? <==> n <= |s|
    ensures r.Ok? ==> |r.value.0| == n && s == r.value.0 + r.value.1
  {
    if n <= |s| then Ok((s[..n], s[n..])) else Err(e)
  }

  function TakeU8<E>(s: Bytes, e: E): (r: Result<(byte, Bytes), E>)
    ensures r.Ok? ==> s == [r.value.0] + r.value.1
  {
    if |s| >= 1 then Ok((s[0], s[1..])) else Err(e)
  }

  function TakeU16<E>(s: Bytes, e: E): (r: Result<(u16, Bytes), E>)
    ensures r.Ok? ==> s == U16(r.value.0) + r.value.1
  {
    var (b, rest) :- Take(s, 2, e);
    Ok((FromU16(b), rest))
  }

  function TakeU32<E>(s: Bytes, e: E): (r: Result<(u32, Bytes), E>)
    ensures r.Ok? ==> s == U32(r.value.0) + r.value.1
  {
    var (b, rest) :- Take(s, 4, e);
    Ok((FromU32(b), rest))
  }

  function TakeU64<E>(s: Bytes, e: E): (r: Result<(u64, Bytes), E>)
    ensures r.Ok? ==> s == U64(r.value.0) + r.value.1
  {
    var (b, rest) :- Take(s, 8, e);
    Ok((FromU64(b), rest))
  }

  /** A field followed by anything is taken back exactly. */
  lemma TakeAppend<E>(a: Bytes, rest: Bytes, e: E)
    ensures Take(a + rest, |a|, e) == Ok((a, rest))
  {
    assert (a + rest)[..|a|] == a;
    assert (a + rest)[|a|..] == rest;
  }

  lemma TakeU16Append<E>(v: u16, rest: Bytes, e: E)
    ensures TakeU16(U16(v) + rest, e) == Ok((v, rest))
  {
    TakeAppend(U16(v), rest, e);
  }

  lemma TakeU32Append<E>(v: u32, rest: Bytes, e: E)
    ensures TakeU32(U32(v) + rest, e) == Ok((v, rest))
  {
    TakeAppend(U32(v), rest, e);
  }

  lemma TakeU64Append<E>(v: u64, rest: Bytes, e: E)
    ensures TakeU64(U64(v) + rest, e) == Ok((v, rest))
  {
    TakeAppend(U64(v), rest, e);
  }

  lemma TakeU8Append<E>(v: byte, rest: Bytes, e: E)
    ensures TakeU8([v] + rest, e) == Ok((v, rest))
  {
    assert ([v] + rest)[1..] == rest;
  }

  /** Re-association of a record of five fields in front of a remainder. */
  lemma Regroup(a: Bytes, b: Bytes, c: Bytes, d: Bytes, e: Bytes, rest: Bytes)
    ensures a + (b + (c + (d + (e + rest)))) == (a + (b + (c + (d + e)))) + rest
  {
    assert d + (e + rest) == (d + e) + rest;
    assert c + ((d + e) + rest) == (c + (d + e)) + rest;
    assert b + ((c + (d + e)) + rest) == (b + (c + (d + e))) + rest;
  }

  // ---- a loop's output so far, in front of what the rest of it will give ----

  function Front<T, E>(xs: seq<T>, r: Result<seq<T>, E>): Result<seq<T>, E> {
    if r.Ok? then Ok(xs + r.value) else r
  }

  lemma FrontNone<T, E>(r: Result<seq<T>, E>)
    ensures Front([], r) == r
  {
    if r.Ok? { assert [] + r.value == r.value; }
  }

  lemma FrontMore<T, E>(xs: seq<T>, ys: seq<T>, r: Result<seq<T>, E>)
    ensures Front(xs + ys, r) == Front(xs, Front(ys, r))
  {
    if r.Ok? { assert (xs + ys) + r.value == xs + (ys + r.value); }
  }

  /** The same for a reader, which also returns the bytes it has not read. */
  function FrontRead<T, E>(xs: seq<T>, r: Result<(seq<T>, Bytes), E>): Result<(seq<T>, Bytes), E> {
    if r.Ok? then Ok((xs + r.value.0, r.value.1)) else r
  }

  lemma FrontReadNone<T, E>(r: Result<(seq<T>, Bytes), E>)
    ensures FrontRead([], r) == r
  {
    if r.Ok? { assert [] + r.value.0 == r.value.0; }
  }

  lemma FrontReadMore<T, E>(xs: seq<T>, ys: seq<T>, r: Result<(seq<T>, Bytes), E>)
    ensures FrontRead(xs + ys, r) == FrontRead(xs, FrontRead(ys, r))
  {
    if r.Ok? { assert (xs + ys) + r.value.0 == xs + (ys + r.value.0); }
  }

  // ---- the cursor parser ---------------------------------------------------

  /** `ByteParser` (keys/device.rs), `EnvelopeByteParser` (transfer/envelope.rs) and
      `ReplayByteParser` (transfer/replay.rs): a byte string and an offset that every
      successful `take` advances. A failing `take` leaves the offset alone. */
  class ByteParser<E> {
    const bytes: Bytes
    const error: E
    var offset: nat

    ghost predicate Valid()
      reads this
    {
      offset <= |bytes|
    }

    /** The bytes still to be read. */
    ghost function Rest(): Bytes
      requires Valid()
      reads this
    {
      bytes[offset..]
    }

    constructor (bytes: Bytes, error: E)
      ensures Valid() && this.bytes == bytes && this.error == error && Rest() == bytes
    {
      this.bytes := bytes;
      this.error := error;
      offset := 0;
    }

    method IsEmpty() returns (r: bool)
      requires Valid()
      ensures r == (Rest() == [])
    {
      r := offset == |bytes|;
    }

    method TakeSlice(len: nat) returns (r: Result<Bytes, E>)
      requires Valid()
      modifies this`offset
      ensures Valid()
      ensures match old(Take(Rest(), len, error))
              case Ok((b, rest)) => r == Ok(b) && Rest() == rest
              case Err(e) => r == Err(e) && Rest() == old(Rest())
    {
      var end := offset + len;
      if end > |bytes| {
        return Err(error);
      }
      r := Ok(bytes[offset..end]);
      assert bytes[offset..][..len] == bytes[offset..end];
      assert bytes[offset..][len..] == bytes[end..];
      offset := end;
    }

    method TakeByte() returns (r: Result<byte, E>)
      requires Valid()
      modifies this`offset
      ensures Valid()
      ensures match old(TakeU8(Rest(), error))
              case Ok((b, rest)) => r == Ok(b) && Rest() == rest
              case Err(e) => r == Err(e)
    {
      var b :- TakeSlice(1);
      r := Ok(b[0]);
    }

    method TakeU16Le() returns (r: Result<u16, E>)
      requires Valid()
      modifies this`offset
      ensures Valid()
      ensures match old(TakeU16(Rest(), error))
              case Ok((v, rest)) => r == Ok(v) && Rest() == rest
              case Err(e) => r == Err(e)
    {
      var b :- TakeSlice(2);
      r := Ok(FromU16(b));
    }

    method TakeU32Le() returns (r: Result<u32, E>)
      requires Valid()
      modifies this`offset
      ensures Valid()
      ensures match old(TakeU32(Rest(), error))
              case Ok((v, rest)) => r == Ok(v) && Rest() == rest
              case Err(e) => r == Err(e)
    {
      var b :- TakeSlice(4);
      r := Ok(FromU32(b));
    }

    method TakeU64Le() returns (r: Result<u64, E>)
      requires Valid()
      modifies this`offset
      ensures Valid()
      ensures match old(TakeU64(Rest(), error))
              case Ok((v, rest)) => r == Ok(v) && Rest() == rest
              case Err(e) => r == Err(e)
    {
      var b :- TakeSlice(8);
      r := Ok(FromU64(b));
    }
  }
}
