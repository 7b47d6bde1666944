/** The text format of a device identity: lines of `key=value`, with hexadecimal and decimal
    values (keys/device.rs). */
module IdentityText {
  import opened Wire
  import opened Crypto
  import opened Transfer
  import opened DeviceKeys

  const NEWLINE: byte := 0x0A
  const RETURN: byte := 0x0D
  const EQUALS: byte := 0x3D
  const PLUS: byte := 0x2B

  /** An ASCII literal as bytes. */
  function Ascii(s: string): (b: Bytes)
    requires forall i :: 0 <= i < |s| ==> s[i] as int < 0x80
    ensures |b| == |s| && forall i :: 0 <= i < |b| ==> b[i] == s[i] as int < 0x80
  {
    seq(|s|, i requires 0 <= i < |s| => s[i] as int as byte)
  }

  // ---- UTF-8 under cutting and joining -------------------------------------------------------

  /** How many bytes the first character of a valid string takes. */
  function CharLen(s: Bytes): (n: nat)
    requires s != [] && ValidUtf8(s)
    ensures 1 <= n <= |s| && ValidUtf8(s[n..])
    ensures forall i :: 0 < i < n ==> s[i] >= 0x80
  {
    if s[0] <= 0x7F then 1 else if s[0] <= 0xDF then 2 else if s[0] <= 0xEF then 3 else 4
  }

  lemma ConsChar(s: Bytes, rest: Bytes)
    requires s != [] && ValidUtf8(s) && ValidUtf8(rest)
    ensures ValidUtf8(s[..CharLen(s)] + rest)
  {
    var n := CharLen(s);
    var t := s[..n] + rest;
    assert t[n..] == rest && forall i :: 0 <= i < n ==> t[i] == s[i];
    if n == 1 { assert t[1..] == rest; }
    else if n == 2 { assert t[2..] == rest; }
    else if n == 3 { assert t[3..] == rest; }
    else { assert t[4..] == rest; }
  }

  lemma {:induction false} Utf8Append(a: Bytes, b: Bytes)
    requires ValidUtf8(a) && ValidUtf8(b)
    ensures ValidUtf8(a + b)
    decreases |a|
  {
    hide ValidUtf8;
    if a == [] {
      assert a + b == b;
    } else {
      var n := CharLen(a);
      Utf8Append(a[n..], b);
      ConsChar(a, a[n..] + b);
      assert a + b == a[..n] + (a[n..] + b);
    }
  }

  /** A valid string cut at an ASCII byte falls into two valid strings. */
  lemma {:induction false} Utf8Cut(a: Bytes, c: byte, b: Bytes)
    requires ValidUtf8(a + ([c] + b)) && c < 0x80
    ensures ValidUtf8(a) && ValidUtf8(b)
    decreases |a|
  {
    hide ValidUtf8, CharLen;
    var s := a + ([c] + b);
    if a == [] {
      assert s[0] == c && s[1..] == b;
      AsciiHead(s);
    } else {
      var n := CharLen(s);
      assert s[|a|] == c;
      assert s[n..] == a[n..] + ([c] + b);
      Utf8Cut(a[n..], c, b);
      FirstCharOf(a, [c] + b);
    }
  }

  lemma AsciiHead(s: Bytes)
    requires s != [] && ValidUtf8(s) && s[0] < 0x80
    ensures ValidUtf8(s[1..]) && ValidUtf8([])
  {}

  lemma FirstCharOf(a: Bytes, rest: Bytes)
    requires a != [] && ValidUtf8(a + rest) && CharLen(a + rest) <= |a| && ValidUtf8(a[CharLen(a + rest)..])
    ensures ValidUtf8(a)
  {
    var s := a + rest;
    var n := CharLen(s);
    assert forall i :: 0 <= i < n ==> a[i] == s[i];
  }

  lemma {:induction false} AsciiIsUtf8(s: Bytes)
    requires forall i :: 0 <= i < |s| ==> s[i] < 0x80
    ensures ValidUtf8(s)
  {
    if s != [] { AsciiIsUtf8(s[1..]); }
  }

  // ---- hexadecimal ------------------------------------------------------------------------------

  function HexDigit(n: nat): byte
    requires n < 16
  {
    if n < 10 then 0x30 + n else 0x61 + (n - 10)
  }

  /** `hex_encode`. */
  function HexEncode(bytes: Bytes): Bytes {
    if bytes == [] then [] else [HexDigit(bytes[0] / 16), HexDigit(bytes[0] % 16)] + HexEncode(bytes[1..])
  }

  function HexValue(c: byte): (r: Option<nat>)
    ensures r.Some? ==> r.value < 16
  {
    if 0x30 <= c <= 0x39 then Some(c - 0x30)
    else if 0x61 <= c <= 0x66 then Some(c - 0x61 + 10)
    else if 0x41 <= c <= 0x46 then Some(c - 0x41 + 10)
    else None
  }

  /** `u8::from_str_radix(pair, 16)`, which also takes a plus sign in front of one digit. */
  function HexPair(a: byte, b: byte): Option<byte> {
    if a == PLUS then
      match HexValue(b) case None => None case Some(lo) => Some(lo)
    else
      match (HexValue(a), HexValue(b))
      case (Some(hi), Some(lo)) => Some(hi * 16 + lo)
      case _ => None
  }

  /** `hex_decode`. */
  function HexDecode(s: Bytes): Result<Bytes, DeviceError> {
    if |s| % 2 != 0 then Err(InvalidFileFormat)
    else if s == [] then Ok([])
    else
      match HexPair(s[0], s[1])
      case None => Err(InvalidFileFormat)
      case Some(v) =>
        var rest :- HexDecode(s[2..]);
        Ok([v] + rest)
  }

  /** Every byte string survives hexadecimal, which is plain ASCII. */
  lemma {:induction false} HexRoundTrip(bytes: Bytes)
    ensures |HexEncode(bytes)| == 2 * |bytes|
    ensures HexDecode(HexEncode(bytes)) == Ok(bytes)
    ensures forall c :: c in HexEncode(bytes) ==> 0x30 <= c <= 0x66
  {
    if bytes != [] {
      var b, rest := bytes[0], bytes[1..];
      HexRoundTrip(rest);
      assert HexEncode(bytes)[2..] == HexEncode(rest);
      assert HexPair(HexDigit(b / 16), HexDigit(b % 16)) == Some(b);
      assert bytes == [b] + rest;
    }
  }

  /** The digits the encoder writes. */
  predicate LowerHex(s: Bytes) { forall i :: 0 <= i < |s| ==> 0x30 <= s[i] <= 0x39 || 0x61 <= s[i] <= 0x66 }

  /** The reader takes upper-case digits and a plus sign too: what it accepts is what the encoder
      writes for the result exactly when it has lower-case digits only. */
  lemma {:induction false} HexIsCanonicalExactly(s: Bytes)
    requires HexDecode(s).Ok?
    ensures HexEncode(HexDecode(s).value) == s <==> LowerHex(s)
  {
    if s != [] {
      var rest := s[2..];
      var v := HexPair(s[0], s[1]).value;
      HexIsCanonicalExactly(rest);
      PairIsCanonicalExactly(s[0], s[1]);
      var bytes := HexDecode(rest).value;
      assert HexDecode(s).value == [v] + bytes && ([v] + bytes)[1..] == bytes;
      var pair := [HexDigit(v / 16), HexDigit(v % 16)];
      assert HexEncode([v] + bytes) == pair + HexEncode(bytes);
      assert s == [s[0], s[1]] + rest;
      assert pair + HexEncode(bytes) == s <==> pair == [s[0], s[1]] && HexEncode(bytes) == rest by {
        SplitPair(pair, HexEncode(bytes), s);
      }
      assert LowerHex(s) <==> LowerHex([s[0], s[1]]) && LowerHex(rest) by { LowerHexSplit(s); }
    }
  }

  lemma SplitPair(pair: Bytes, rest: Bytes, s: Bytes)
    requires |pair| == 2 && |s| >= 2
    ensures pair + rest == s <==> pair == [s[0], s[1]] && rest == s[2..]
  {
    assert s == [s[0], s[1]] + s[2..];
    if pair + rest == s { assert s[2..] == rest && s[..2] == pair; }
  }

  lemma LowerHexSplit(s: Bytes)
    requires |s| >= 2
    ensures LowerHex(s) <==> LowerHex([s[0], s[1]]) && LowerHex(s[2..])
  {
    assert s == [s[0], s[1]] + s[2..];
    assert forall i :: 2 <= i < |s| ==> s[i] == s[2..][i - 2];
  }

  lemma PairIsCanonicalExactly(a: byte, b: byte)
    requires HexPair(a, b).Some?
    ensures var v := HexPair(a, b).value;
            [HexDigit(v / 16), HexDigit(v % 16)] == [a, b] <==> LowerHex([a, b])
  {
    var v := HexPair(a, b).value;
    if a != PLUS { assert v / 16 == HexValue(a).value && v % 16 == HexValue(b).value; }
    assert LowerHex([a, b])
      <==> (0x30 <= a <= 0x39 || 0x61 <= a <= 0x66) && (0x30 <= b <= 0x39 || 0x61 <= b <= 0x66) by {
      assert [a, b][0] == a && [a, b][1] == b;
    }
  }

  /** The plus sign, in front of any digit. */
  lemma PlusSignIsTaken(n: nat, rest: Bytes)
    requires n < 16
    ensures HexDecode([PLUS, HexDigit(n)] + HexEncode(rest)) == Ok([n as byte] + rest)
    ensures HexDecode([HexDigit(0), HexDigit(n)] + HexEncode(rest)) == Ok([n as byte] + rest)
  {
    HexRoundTrip(rest);
    var s, t := [PLUS, HexDigit(n)] + HexEncode(rest), [HexDigit(0), HexDigit(n)] + HexEncode(rest);
    assert s[2..] == HexEncode(rest) && t[2..] == HexEncode(rest);
  }

  /** `hex_array::<N>`. */
  function HexArray(s: Bytes, n: nat): (r: Result<Bytes, DeviceError>)
    ensures r.Ok? ==> |r.value| == n
  {
    var bytes :- HexDecode(s);
    if |bytes| == n then Ok(bytes) else Err(InvalidFileFormat)
  }

  // ---- decimal -----------------------------------------------------------------------------------

  /** `u64::to_string`. */
  function PrintDecimal(n: nat): (s: Bytes)
    ensures s != [] && forall c :: c in s ==> 0x30 <= c <= 0x39
  {
    if n < 10 then [0x30 + n] else PrintDecimal(n / 10) + [0x30 + n % 10]
  }

  function DecimalValue(s: Bytes, acc: nat): Option<nat> {
    if s == [] then Some(acc)
    else if 0x30 <= s[0] <= 0x39 then DecimalValue(s[1..], acc * 10 + (s[0] - 0x30))
    else None
  }

  /** `str::parse::<u64>`: an optional plus sign, then digits of a value in range. */
  function ParseDecimal(s: Bytes): Result<u64, DeviceError> {
    var digits := if s != [] && s[0] == PLUS then s[1..] else s;
    if digits == [] then Err(InvalidFileFormat)
    else
      match DecimalValue(digits, 0)
      case None => Err(InvalidFileFormat)
      case Some(v) => if v < TWO_64 then Ok(v) else Err(InvalidFileFormat)
  }

  lemma {:induction false} DecimalAppend(s: Bytes, d: byte, acc: nat)
    requires 0x30 <= d <= 0x39
    ensures DecimalValue(s + [d], acc) ==
              match DecimalValue(s, acc) case None => None case Some(v) => Some(v * 10 + (d - 0x30))
    decreases |s|
  {
    if s == [] {
      assert s + [d] == [d] && [d][1..] == [];
    } else {
      assert (s + [d])[1..] == s[1..] + [d];
      if 0x30 <= s[0] <= 0x39 { DecimalAppend(s[1..], d, acc * 10 + (s[0] - 0x30)); }
    }
  }

  lemma {:induction false} DecimalRoundTrip(n: nat)
    ensures DecimalValue(PrintDecimal(n), 0) == Some(n)
  {
    if n < 10 {
      assert PrintDecimal(n)[1..] == [];
    } else {
      DecimalRoundTrip(n / 10);
      DecimalAppend(PrintDecimal(n / 10), 0x30 + n % 10, 0);
    }
  }

  /** Every timestamp survives decimal notation. */
  lemma TimestampRoundTrip(n: u64)
    ensures ParseDecimal(PrintDecimal(n)) == Ok(n)
  {
    DecimalRoundTrip(n);
    assert PrintDecimal(n)[0] in PrintDecimal(n);
  }

  /** Digits without a leading zero. */
  predicate PlainDecimal(s: Bytes) {
    s != [] && (forall i :: 0 <= i < |s| ==> 0x30 <= s[i] <= 0x39) && (s[0] != 0x30 || |s| == 1)
  }

  lemma {:induction false} PrintedIsPlain(n: nat)
    ensures PlainDecimal(PrintDecimal(n)) && (PrintDecimal(n)[0] == 0x30 ==> n == 0)
  {
    assert forall i :: 0 <= i < |PrintDecimal(n)| ==> PrintDecimal(n)[i] in PrintDecimal(n);
    if n >= 10 {
      PrintedIsPlain(n / 10);
      assert PrintDecimal(n)[0] == PrintDecimal(n / 10)[0];
    }
  }

  lemma {:induction false} PlainIsPrinted(s: Bytes)
    requires PlainDecimal(s)
    ensures var v := DecimalValue(s, 0); v.Some? && PrintDecimal(v.value) == s && (s[0] != 0x30 ==> v.value > 0)
    decreases |s|
  {
    var n := |s| - 1;
    var init := s[..n];
    assert s == init + [s[n]];
    DecimalAppend(init, s[n], 0);
    if n > 0 {
      PlainIsPrinted(init);
    } else {
      assert init == [];
    }
  }

  lemma {:induction false} ValueMeansDigits(s: Bytes, acc: nat)
    requires DecimalValue(s, acc).Some?
    ensures forall i :: 0 <= i < |s| ==> 0x30 <= s[i] <= 0x39
    decreases |s|
  {
    if s != [] {
      ValueMeansDigits(s[1..], acc * 10 + (s[0] - 0x30));
      assert forall i :: 1 <= i < |s| ==> s[i] == s[1..][i - 1];
    }
  }

  /** An accepted number is the one that is printed for its value exactly without a plus sign and
      without a leading zero. */
  lemma DecimalIsCanonicalExactly(s: Bytes)
    requires ParseDecimal(s).Ok?
    ensures PrintDecimal(ParseDecimal(s).value) == s <==> PlainDecimal(s)
    ensures PlainDecimal(s) <==> s[0] != PLUS && (s[0] != 0x30 || |s| == 1)
  {
    PrintedIsPlain(ParseDecimal(s).value);
    if s[0] != PLUS { ValueMeansDigits(s, 0); }
    if PlainDecimal(s) { PlainIsPrinted(s); }
  }

  // ---- lines ------------------------------------------------------------------------------------------

  function IndexOf(s: Bytes, c: byte): (r: Option<nat>)
    ensures r.None? <==> c !in s
    ensures r.Some? ==> r.value < |s| && s[r.value] == c && c !in s[..r.value]
  {
    if s == [] then None
    else if s[0] == c then Some(0)
    else
      match IndexOf(s[1..], c)
      case None => None
      case Some(i) => assert s[..i + 1] == [s[0]] + s[1..][..i]; Some(i + 1)
  }

  lemma {:induction false} IndexOfFirst(a: Bytes, c: byte, b: Bytes)
    requires c !in a
    ensures IndexOf(a + ([c] + b), c) == Some(|a|)
  {
    var s := a + ([c] + b);
    if a == [] {
      assert s[0] == c;
    } else {
      assert s[0] == a[0] && s[1..] == a[1..] + ([c] + b);
      IndexOfFirst(a[1..], c, b);
    }
  }

  function StripReturn(s: Text): (r: Text)
  {
    if s != [] && s[|s| - 1] == RETURN then
      assert s == s[..|s| - 1] + ([RETURN] + []);
      Utf8Cut(s[..|s| - 1], RETURN, []);
      s[..|s| - 1]
    else s
  }

  /** A valid string cut at an ASCII byte that occurs in it. */
  lemma CutAt(s: Text, c: byte, i: nat)
    requires i < |s| && s[i] == c && c < 0x80
    ensures ValidUtf8(s[..i]) && ValidUtf8(s[i + 1..])
  {
    assert s == s[..i] + ([c] + s[i + 1..]);
    Utf8Cut(s[..i], c, s[i + 1..]);
  }

  /** `str::lines`: a line ends at a newline, and loses a carriage return right before it. */
  function Lines(text: Text): (lines: seq<Text>)
    decreases |text|
  {
    match IndexOf(text, NEWLINE)
    case None => if text == [] then [] else [text]
    case Some(i) =>
      CutAt(text, NEWLINE, i);
      [StripReturn(text[..i])] + Lines(text[i + 1..])
  }

  /** `split_once('=')`. */
  function SplitOnce(line: Text): (r: Option<(Text, Text)>)
    ensures r.Some? ==> line == r.value.0 + ([EQUALS] + r.value.1) && EQUALS !in r.value.0
    ensures r.None? ==> EQUALS !in line
  {
    match IndexOf(line, EQUALS)
    case None => None
    case Some(i) =>
      CutAt(line, EQUALS, i);
      Some((line[..i], line[i + 1..]))
  }

  // ---- the text format ------------------------------------------------------------------------------

  const HEADER_LINE: Bytes := Ascii("ms-device-identity-v1")
  const DEVICE_ID: Bytes := Ascii("device_id")
  const DISPLAY_NAME: Bytes := Ascii("display_name")
  const CLASSICAL_KEY: Bytes := Ascii("classical_public_key")
  const PQC_KEY: Bytes := Ascii("pqc_public_key")
  const SIGNING_ALGORITHM: Bytes := Ascii("signing_algorithm")
  const ED25519_V1: Bytes := Ascii("Ed25519V1")
  const SIGNING_KEY: Bytes := Ascii("signing_public_key")
  const CREATED_AT: Bytes := Ascii("created_at")

  function Field(key: Bytes, value: Bytes): Bytes { key + ([EQUALS] + value) }

  function SigningKeyBytes(id: Identity): Bytes { if id.signing.Some? then id.signing.value.bytes else [] }

  /** The lines after the first, for a given display name. */
  function FieldLines(id: Identity, name: Text): (lines: seq<Text>)
    ensures |lines| == 7
  {
    FieldLinesAreText(id, name);
    [Field(DEVICE_ID, HexEncode(id.deviceId)), Field(DISPLAY_NAME, name),
     Field(CLASSICAL_KEY, HexEncode(id.classical)), Field(PQC_KEY, HexEncode(id.pqc)),
     Field(SIGNING_ALGORITHM, ED25519_V1), Field(SIGNING_KEY, HexEncode(SigningKeyBytes(id))),
     Field(CREATED_AT, PrintDecimal(id.createdAt))]
  }

  function TextLines(id: Identity): seq<Text> {
    AsciiIsUtf8(HEADER_LINE);
    [HEADER_LINE] + FieldLines(id, id.name)
  }

  function Joined(lines: seq<Bytes>): Bytes {
    if lines == [] then [] else lines[0] + ([NEWLINE] + Joined(lines[1..]))
  }

  /** `serialize_identity_text`. */
  function SerializeText(id: Identity): Text {
    JoinedIsText(TextLines(id));
    Joined(TextLines(id))
  }

  lemma {:induction false} JoinedIsText(lines: seq<Bytes>)
    requires forall i :: 0 <= i < |lines| ==> ValidUtf8(lines[i])
    ensures ValidUtf8(Joined(lines))
  {
    hide ValidUtf8;
    if lines == [] {
      AsciiIsUtf8([]);
    } else {
      JoinedIsText(lines[1..]);
      AsciiIsUtf8([NEWLINE]);
      Utf8Append([NEWLINE], Joined(lines[1..]));
      Utf8Append(lines[0], [NEWLINE] + Joined(lines[1..]));
    }
  }

  lemma FieldIsText(key: Bytes, value: Bytes)
    requires (forall i :: 0 <= i < |key| ==> key[i] < 0x80) && ValidUtf8(value)
    ensures ValidUtf8(Field(key, value))
  {
    hide ValidUtf8;
    AsciiIsUtf8(key);
    AsciiIsUtf8([EQUALS]);
    Utf8Append([EQUALS], value);
    Utf8Append(key, [EQUALS] + value);
  }

  lemma HexIsText(bytes: Bytes)
    ensures ValidUtf8(HexEncode(bytes))
  {
    HexRoundTrip(bytes);
    assert forall i :: 0 <= i < |HexEncode(bytes)| ==> HexEncode(bytes)[i] in HexEncode(bytes);
    AsciiIsUtf8(HexEncode(bytes));
  }

  lemma DecimalIsText(n: nat)
    ensures ValidUtf8(PrintDecimal(n))
  {
    assert forall i :: 0 <= i < |PrintDecimal(n)| ==> PrintDecimal(n)[i] in PrintDecimal(n);
    AsciiIsUtf8(PrintDecimal(n));
  }

  lemma FieldLinesAreText(id: Identity, name: Text)
    ensures ValidUtf8(Field(DEVICE_ID, HexEncode(id.deviceId))) && ValidUtf8(Field(DISPLAY_NAME, name))
    ensures ValidUtf8(Field(CLASSICAL_KEY, HexEncode(id.classical))) && ValidUtf8(Field(PQC_KEY, HexEncode(id.pqc)))
    ensures ValidUtf8(Field(SIGNING_ALGORITHM, ED25519_V1))
    ensures ValidUtf8(Field(SIGNING_KEY, HexEncode(SigningKeyBytes(id))))
    ensures ValidUtf8(Field(CREATED_AT, PrintDecimal(id.createdAt)))
  {
    hide ValidUtf8, Field, HexEncode, PrintDecimal;
    HexIsText(id.deviceId);
    HexIsText(id.classical);
    HexIsText(id.pqc);
    HexIsText(SigningKeyBytes(id));
    AsciiIsUtf8(ED25519_V1);
    DecimalIsText(id.createdAt);
    FieldIsText(DEVICE_ID, HexEncode(id.deviceId));
    FieldIsText(DISPLAY_NAME, name);
    FieldIsText(CLASSICAL_KEY, HexEncode(id.classical));
    FieldIsText(PQC_KEY, HexEncode(id.pqc));
    FieldIsText(SIGNING_ALGORITHM, ED25519_V1);
    FieldIsText(SIGNING_KEY, HexEncode(SigningKeyBytes(id)));
    FieldIsText(CREATED_AT, PrintDecimal(id.createdAt));
  }

  /** The optional fields the line loop fills in; a repeated key overwrites. */
  datatype TextFields = TextFields(deviceId: Option<Bytes16>, name: Option<Text>, classical: Option<Bytes32>,
                                   pqc: Option<Bytes1184>, algorithm: Option<SigningAlgorithm>, signing: Option<Bytes>,
                                   createdAt: Option<u64>)

  const NO_FIELDS: TextFields := TextFields(None, None, None, None, None, None, None)

  /** One arm of the match on a line's key. */
  function StepField(f: TextFields, key: Text, value: Text): Result<TextFields, DeviceError> {
    if key == DEVICE_ID then
      var b :- HexArray(value, 16);
      Ok(f.(deviceId := Some(b)))
    else if key == DISPLAY_NAME && NEWLINE !in value then Ok(f.(name := Some(value)))
    else if key == CLASSICAL_KEY then
      var b :- HexArray(value, 32);
      Ok(f.(classical := Some(b)))
    else if key == PQC_KEY then
      var b :- HexArray(value, 1184);
      Ok(f.(pqc := Some(b)))
    else if key == SIGNING_ALGORITHM && value == ED25519_V1 then Ok(f.(algorithm := Some(Ed25519V1)))
    else if key == SIGNING_KEY then
      var b :- HexDecode(value);
      Ok(f.(signing := Some(b)))
    else if key == CREATED_AT then
      var t :- ParseDecimal(value);
      Ok(f.(createdAt := Some(t)))
    else Err(InvalidFileFormat)
  }

  function StepLine(f: TextFields, line: Text): Result<TextFields, DeviceError> {
    match SplitOnce(line)
    case None => Err(InvalidFileFormat)
    case Some((key, value)) => StepField(f, key, value)
  }

  function ReadLines(lines: seq<Text>, f: TextFields): Result<TextFields, DeviceError> {
    if lines == [] then Ok(f)
    else
      var next :- StepLine(f, lines[0]);
      ReadLines(lines[1..], next)
  }

  function BuildIdentity(f: TextFields): Result<Identity, DeviceError> {
    if f.algorithm.None? || f.signing.None? then Err(InvalidFileFormat)
    else
      var key :- NewSigningKey(f.algorithm.value, f.signing.value);
      if f.deviceId.None? || f.name.None? || f.classical.None? || f.pqc.None? || f.createdAt.None?
      then Err(InvalidFileFormat)
      else
        var id := Identity(f.deviceId.value, f.name.value, f.classical.value, f.pqc.value, Some(key), f.createdAt.value,
                           Untrusted);
        var _ :- Validate(id);
        Ok(id)
  }

  /** `deserialize_identity_text`. */
  function ParseText(text: Text): Result<Identity, DeviceError> {
    var lines := Lines(text);
    if lines == [] || lines[0] != HEADER_LINE then Err(InvalidFileFormat)
    else
      var f :- ReadLines(lines[1..], NO_FIELDS);
      BuildIdentity(f)
  }

  // ---- what any accepted text gives ---------------------------------------------------------------------

  predicate NameOk(f: TextFields) { f.name.Some? ==> NEWLINE !in f.name.value }

  lemma {:induction false} ReadNamesHaveNoNewline(lines: seq<Text>, f: TextFields)
    requires NameOk(f) && ReadLines(lines, f).Ok?
    ensures NameOk(ReadLines(lines, f).value)
    decreases |lines|
  {
    hide HexDecode, HexArray, ParseDecimal, SplitOnce;
    if lines != [] { ReadNamesHaveNoNewline(lines[1..], StepLine(f, lines[0]).value); }
  }

  /** Whatever text is accepted, the identity is untrusted, valid, carries an Ed25519 key, and
      its name has no newline. */
  lemma ParsedTextIsUntrusted(text: Text)
    requires ParseText(text).Ok?
    ensures var id := ParseText(text).value;
            id.trust == Untrusted && Portable(id) && id.signing.Some? && NEWLINE !in id.name
  {
    hide ReadLines;
    ReadNamesHaveNoNewline(Lines(text)[1..], NO_FIELDS);
  }

  // ---- the round trip -----------------------------------------------------------------------------------------

  lemma {:induction false} LinesOfJoined(lines: seq<Bytes>, i: nat)
    requires i <= |lines| && forall k :: 0 <= k < |lines| ==> ValidUtf8(lines[k]) && NEWLINE !in lines[k]
    ensures ValidUtf8(Joined(lines[i..]))
    ensures Lines(Joined(lines[i..])) == Stripped(lines)[i..]
    decreases |lines| - i
  {
    hide ValidUtf8, StripReturn, Lines, Joined;
    JoinedIsText(lines[i..]);
    if i < |lines| {
      LinesOfJoined(lines, i + 1);
      assert lines[i..][1..] == lines[i + 1..];
      JoinedCons(lines[i..]);
      FirstLine(lines[i], Joined(lines[i + 1..]));
      assert Stripped(lines)[i..] == [Stripped(lines)[i]] + Stripped(lines)[i + 1..];
    } else {
      NoLines();
    }
  }

  lemma JoinedCons(lines: seq<Bytes>)
    requires lines != []
    ensures Joined(lines) == lines[0] + ([NEWLINE] + Joined(lines[1..]))
  {}

  lemma NoLines()
    ensures Joined([]) == [] && ValidUtf8([]) && Lines([]) == []
  {}

  lemma FirstLine(line: Bytes, rest: Bytes)
    requires ValidUtf8(line) && ValidUtf8(rest) && ValidUtf8(line + ([NEWLINE] + rest)) && NEWLINE !in line
    ensures Lines(line + ([NEWLINE] + rest)) == [StripReturn(line)] + Lines(rest)
  {
    hide ValidUtf8, StripReturn;
    var text := line + ([NEWLINE] + rest);
    IndexOfFirst(line, NEWLINE, rest);
    assert text[..|line|] == line && text[|line| + 1..] == rest;
  }

  function Stripped(lines: seq<Bytes>): (r: seq<Text>)
    requires forall k :: 0 <= k < |lines| ==> ValidUtf8(lines[k])
    ensures |r| == |lines|
  {
    seq(|lines|, k requires 0 <= k < |lines| => StripReturn(lines[k]))
  }

  lemma SplitField(key: Bytes, value: Bytes)
    requires ValidUtf8(Field(key, value)) && ValidUtf8(value) && ValidUtf8(key) && EQUALS !in key
    ensures SplitOnce(Field(key, value)) == Some((key, value))
  {
    IndexOfFirst(key, EQUALS, value);
    assert Field(key, value)[..|key|] == key && Field(key, value)[|key| + 1..] == value;
  }

  /** Reading one written line. */
  lemma ReadField(key: Bytes, value: Bytes, rest: seq<Text>, f: TextFields)
    requires ValidUtf8(Field(key, value)) && ValidUtf8(value) && ValidUtf8(key) && EQUALS !in key
    ensures ReadLines([Field(key, value)] + rest, f) ==
              var next := StepField(f, key, value);
              if next.Err? then Err(next.error) else ReadLines(rest, next.value)
  {
    hide StepField, Field, ValidUtf8;
    SplitField(key, value);
    assert ([Field(key, value)] + rest)[1..] == rest;
  }

  /** A key of the format, with nothing in it that would end a key or a line. */
  predicate PlainKey(key: Bytes) { ValidUtf8(key) && EQUALS !in key && NEWLINE !in key }

  lemma LiteralIsPlain(s: string)
    requires forall i :: 0 <= i < |s| ==> s[i] as int < 0x80 && s[i] != '=' && s[i] != '\n'
    ensures PlainKey(Ascii(s))
  {
    AsciiIsUtf8(Ascii(s));
  }

  lemma KeysArePlain()
    ensures PlainKey(DEVICE_ID) && PlainKey(DISPLAY_NAME) && PlainKey(CLASSICAL_KEY) && PlainKey(PQC_KEY)
    ensures PlainKey(SIGNING_ALGORITHM) && PlainKey(SIGNING_KEY) && PlainKey(CREATED_AT)
  {
    hide PlainKey;
    LiteralIsPlain("device_id");
    LiteralIsPlain("display_name");
    LiteralIsPlain("classical_public_key");
    LiteralIsPlain("pqc_public_key");
    LiteralIsPlain("signing_algorithm");
    LiteralIsPlain("signing_public_key");
    LiteralIsPlain("created_at");
  }

  lemma LiteralsArePlain()
    ensures PlainKey(HEADER_LINE) && PlainKey(ED25519_V1)
  {
    hide PlainKey;
    LiteralIsPlain("ms-device-identity-v1");
    LiteralIsPlain("Ed25519V1");
  }

  /** The carriage return a line loses is one at the end of its value. */
  lemma StripField(key: Bytes, value: Bytes)
    requires ValidUtf8(Field(key, value)) && ValidUtf8(value)
    ensures StripReturn(Field(key, value)) == Field(key, StripReturn(value))
  {
    var line := Field(key, value);
    if value == [] {
      assert line[|line| - 1] == EQUALS;
    } else {
      assert line[|line| - 1] == value[|value| - 1];
      assert line[..|line| - 1] == Field(key, value[..|value| - 1]);
    }
  }

  /** A line whose value has neither newline nor carriage return. */
  lemma PlainField(key: Bytes, value: Bytes)
    requires PlainKey(key) && ValidUtf8(value) && ValidUtf8(Field(key, value)) && forall c :: c in value ==> c >= 0x30
    ensures NEWLINE !in Field(key, value) && StripReturn(Field(key, value)) == Field(key, value)
  {
    hide ValidUtf8;
    StripField(key, value);
    assert value != [] ==> value[|value| - 1] in value;
  }

  lemma NameField(name: Text)
    requires NEWLINE !in name && ValidUtf8(Field(DISPLAY_NAME, name))
    ensures NEWLINE !in Field(DISPLAY_NAME, name)
    ensures StripReturn(Field(DISPLAY_NAME, name)) == Field(DISPLAY_NAME, StripReturn(name))
  {
    hide ValidUtf8;
    KeysArePlain();
    StripField(DISPLAY_NAME, name);
  }

  lemma HexField(key: Bytes, bytes: Bytes)
    requires PlainKey(key) && ValidUtf8(Field(key, HexEncode(bytes)))
    ensures NEWLINE !in Field(key, HexEncode(bytes))
    ensures StripReturn(Field(key, HexEncode(bytes))) == Field(key, HexEncode(bytes))
  {
    hide ValidUtf8, HexEncode, Field, PlainKey;
    HexRoundTrip(bytes);
    HexIsText(bytes);
    PlainField(key, HexEncode(bytes));
  }

  lemma LiteralFields(id: Identity)
    requires ValidUtf8(Field(SIGNING_ALGORITHM, ED25519_V1)) && ValidUtf8(Field(CREATED_AT, PrintDecimal(id.createdAt)))
    ensures var line := Field(SIGNING_ALGORITHM, ED25519_V1); NEWLINE !in line && StripReturn(line) == line
    ensures var line := Field(CREATED_AT, PrintDecimal(id.createdAt)); NEWLINE !in line && StripReturn(line) == line
  {
    hide ValidUtf8, PrintDecimal, Field;
    KeysArePlain();
    LiteralsArePlain();
    DecimalIsText(id.createdAt);
    PlainField(CREATED_AT, PrintDecimal(id.createdAt));
    assert forall c :: c in ED25519_V1 ==> c >= 0x30;
    PlainField(SIGNING_ALGORITHM, ED25519_V1);
  }

  /** What `lines()` gives back for the written lines: only the name can lose anything. */
  lemma StrippedTextLines(id: Identity)
    requires NEWLINE !in id.name
    ensures forall k :: 0 <= k < 8 ==> NEWLINE !in TextLines(id)[k]
    ensures Stripped(TextLines(id)) == [HEADER_LINE] + FieldLines(id, StripReturn(id.name))
  {
    hide ValidUtf8, Field, HexEncode, PrintDecimal, PlainKey, StripReturn;
    KeysArePlain();
    FieldLinesAreText(id, id.name);
    HexField(DEVICE_ID, id.deviceId);
    NameField(id.name);
    HexField(CLASSICAL_KEY, id.classical);
    HexField(PQC_KEY, id.pqc);
    HexField(SIGNING_KEY, SigningKeyBytes(id));
    LiteralFields(id);
    HeaderStays();
  }

  lemma HeaderStays()
    ensures ValidUtf8(HEADER_LINE) && NEWLINE !in HEADER_LINE && StripReturn(HEADER_LINE) == HEADER_LINE
  {
    LiteralsArePlain();
    assert HEADER_LINE[20] == '1' as int;
  }

  /** All seven written fields are read. */
  lemma ReadFieldLines(id: Identity, name: Text)
    requires NEWLINE !in name
    ensures ReadLines(FieldLines(id, name), NO_FIELDS)
         == Ok(TextFields(Some(id.deviceId), Some(name), Some(id.classical), Some(id.pqc), Some(Ed25519V1),
                          Some(SigningKeyBytes(id)), Some(id.createdAt)))
  {
    hide ValidUtf8, Field, HexEncode, HexDecode, PrintDecimal, ParseDecimal, PlainKey, ReadLines;
    KeysArePlain();
    LiteralsArePlain();
    FieldLinesAreText(id, name);
    HexIsText(id.deviceId);
    HexIsText(id.classical);
    HexIsText(id.pqc);
    HexIsText(SigningKeyBytes(id));
    DecimalIsText(id.createdAt);
    HexRoundTrip(id.deviceId);
    HexRoundTrip(id.classical);
    HexRoundTrip(id.pqc);
    HexRoundTrip(SigningKeyBytes(id));
    TimestampRoundTrip(id.createdAt);
    PlainIsText();
    var lines := FieldLines(id, name);
    var f1 := NO_FIELDS.(deviceId := Some(id.deviceId));
    var f2 := f1.(name := Some(name));
    var f3 := f2.(classical := Some(id.classical));
    var f4 := f3.(pqc := Some(id.pqc));
    var f5 := f4.(algorithm := Some(Ed25519V1));
    var f6 := f5.(signing := Some(SigningKeyBytes(id)));
    var f7 := f6.(createdAt := Some(id.createdAt));
    ReadFieldAt(lines, 0, DEVICE_ID, HexEncode(id.deviceId), NO_FIELDS, f1);
    ReadFieldAt(lines, 1, DISPLAY_NAME, name, f1, f2);
    ReadFieldAt(lines, 2, CLASSICAL_KEY, HexEncode(id.classical), f2, f3);
    ReadFieldAt(lines, 3, PQC_KEY, HexEncode(id.pqc), f3, f4);
    ReadFieldAt(lines, 4, SIGNING_ALGORITHM, ED25519_V1, f4, f5);
    ReadFieldAt(lines, 5, SIGNING_KEY, HexEncode(SigningKeyBytes(id)), f5, f6);
    ReadFieldAt(lines, 6, CREATED_AT, PrintDecimal(id.createdAt), f6, f7);
    ReadNoLines(f7);
    assert lines[7..] == [] && lines[0..] == lines;
  }

  lemma PlainIsText()
    ensures forall k :: PlainKey(k) ==> ValidUtf8(k) && EQUALS !in k
  {}

  lemma ReadNoLines(f: TextFields)
    ensures ReadLines([], f) == Ok(f)
  {}

  lemma ReadFieldAt(lines: seq<Text>, i: nat, key: Bytes, value: Bytes, f: TextFields, next: TextFields)
    requires i < |lines| && ValidUtf8(value) && ValidUtf8(key) && EQUALS !in key
    requires lines[i] == Field(key, value) && StepField(f, key, value) == Ok(next)
    ensures ReadLines(lines[i..], f) == ReadLines(lines[i + 1..], next)
  {
    hide ValidUtf8, Field, StepField, ReadLines;
    assert lines[i..] == [Field(key, value)] + lines[i + 1..];
    ReadField(key, value, lines[i + 1..], f);
  }

  /** Reading a written identity whose name has no newline: the name loses a carriage return
      at its end, the trust state is reset, and without a 32-byte signing key or with nothing
      left of the name the text is refused. */
  lemma TextRoundTrip(id: Identity)
    requires NEWLINE !in id.name
    ensures ParseText(SerializeText(id)) ==
              if |SigningKeyBytes(id)| != 32 then Err(InvalidSigningPublicKeyLength)
              else if StripReturn(id.name) == [] then Err(EmptyDisplayName)
              else Ok(id.(name := StripReturn(id.name), signing := Some(SigningKey(Ed25519V1, SigningKeyBytes(id))),
                          trust := Untrusted))
  {
    hide ValidUtf8, FieldLines, ReadLines, Lines, Joined, Stripped, StripReturn;
    var name := StripReturn(id.name);
    StrippedHasNoNewline(id.name);
    StrippedTextLines(id);
    LinesOfJoined(TextLines(id), 0);
    assert TextLines(id)[0..] == TextLines(id);
    var lines := Stripped(TextLines(id));
    assert lines[0..] == lines && lines[0] == HEADER_LINE && lines[1..] == FieldLines(id, name);
    ReadFieldLines(id, name);
  }

  lemma StrippedHasNoNewline(s: Text)
    ensures NEWLINE !in s ==> NEWLINE !in StripReturn(s)
    ensures StripReturn(s) == s <==> s == [] || s[|s| - 1] != RETURN
  {}

  /** The text format gives an identity back, all but its trust state, exactly when its name is
      not empty, has no newline and does not end in a carriage return, and it carries a
      32-byte Ed25519 key. */
  lemma TextRoundTripExactly(id: Identity)
    ensures ParseText(SerializeText(id)) == Ok(id.(trust := Untrusted)) <==>
              && id.name != [] && NEWLINE !in id.name && id.name[|id.name| - 1] != RETURN
              && id.signing.Some? && id.signing.value.algorithm == Ed25519V1 && |id.signing.value.bytes| == 32
  {
    hide ValidUtf8, ParseText, SerializeText, StripReturn;
    StrippedHasNoNewline(id.name);
    if NEWLINE in id.name {
      if ParseText(SerializeText(id)).Ok? { ParsedTextIsUntrusted(SerializeText(id)); }
    } else {
      TextRoundTrip(id);
    }
  }

  // ---- which accepted texts are the written ones --------------------------------------------------------------

  const KEYS: seq<Bytes> :=
    [DEVICE_ID, DISPLAY_NAME, CLASSICAL_KEY, PQC_KEY, SIGNING_ALGORITHM, SIGNING_KEY, CREATED_AT]

  /** The value of a line, if it has one. */
  function ValueOf(line: Text): Text { if SplitOnce(line).Some? then SplitOnce(line).value.1 else [] }

  predicate HasKey(line: Text, key: Bytes) { SplitOnce(line).Some? && SplitOnce(line).value.0 == key }

  /** Eight lines in order, each ended by a bare newline, lower-case hexadecimal, a plain decimal. */
  predicate CanonicalText(text: Text) {
    var lines := Lines(text);
    && text == Joined(lines) && |lines| == 8 && lines[0] == HEADER_LINE
    && (forall k :: 0 <= k < 7 ==> HasKey(lines[k + 1], KEYS[k]))
    && LowerHex(ValueOf(lines[1])) && LowerHex(ValueOf(lines[3]))
    && LowerHex(ValueOf(lines[4])) && LowerHex(ValueOf(lines[6]))
    && PlainDecimal(ValueOf(lines[7]))
  }

  /** What an accepted line did to the fields. */
  lemma ReadsOk(lines: seq<Text>, i: nat, f: TextFields) returns (next: TextFields)
    requires i < |lines| && ReadLines(lines[i..], f).Ok?
    ensures SplitOnce(lines[i]).Some?
    ensures StepField(f, SplitOnce(lines[i]).value.0, SplitOnce(lines[i]).value.1) == Ok(next)
    ensures ReadLines(lines[i + 1..], next) == ReadLines(lines[i..], f)
  {
    hide StepField, SplitOnce;
    assert lines[i..][0] == lines[i] && lines[i..][1..] == lines[i + 1..];
    next := StepLine(f, lines[i]).value;
  }

  /** What a line of each key puts into the fields. */
  lemma StepDeviceId(f: TextFields, v: Text, next: TextFields)
    requires ValidUtf8(DEVICE_ID) && StepField(f, DEVICE_ID, v) == Ok(next)
    ensures next.deviceId.Some? && HexDecode(v) == Ok(next.deviceId.value) && next == f.(deviceId := next.deviceId)
  {
    hide HexDecode, ParseDecimal;
  }

  lemma StepName(f: TextFields, v: Text, next: TextFields)
    requires ValidUtf8(DISPLAY_NAME) && StepField(f, DISPLAY_NAME, v) == Ok(next)
    ensures next == f.(name := Some(v))
  {
    hide HexDecode, ParseDecimal;
  }

  lemma StepClassical(f: TextFields, v: Text, next: TextFields)
    requires ValidUtf8(CLASSICAL_KEY) && StepField(f, CLASSICAL_KEY, v) == Ok(next)
    ensures next.classical.Some? && HexDecode(v) == Ok(next.classical.value) && next == f.(classical := next.classical)
  {
    hide HexDecode, ParseDecimal;
  }

  lemma StepPqc(f: TextFields, v: Text, next: TextFields)
    requires ValidUtf8(PQC_KEY) && StepField(f, PQC_KEY, v) == Ok(next)
    ensures next.pqc.Some? && HexDecode(v) == Ok(next.pqc.value) && next == f.(pqc := next.pqc)
  {
    hide HexDecode, ParseDecimal;
  }

  lemma StepAlgorithm(f: TextFields, v: Text, next: TextFields)
    requires ValidUtf8(SIGNING_ALGORITHM) && StepField(f, SIGNING_ALGORITHM, v) == Ok(next)
    ensures v == ED25519_V1 && next == f.(algorithm := Some(Ed25519V1))
  {
    hide HexDecode, ParseDecimal;
  }

  lemma StepSigning(f: TextFields, v: Text, next: TextFields)
    requires ValidUtf8(SIGNING_KEY) && StepField(f, SIGNING_KEY, v) == Ok(next)
    ensures next.signing.Some? && HexDecode(v) == Ok(next.signing.value) && next == f.(signing := next.signing)
  {
    hide HexDecode, ParseDecimal;
  }

  lemma StepCreatedAt(f: TextFields, v: Text, next: TextFields)
    requires ValidUtf8(CREATED_AT) && StepField(f, CREATED_AT, v) == Ok(next)
    ensures next.createdAt.Some? && ParseDecimal(v) == Ok(next.createdAt.value)
    ensures next == f.(createdAt := next.createdAt)
  {
    hide HexDecode, ParseDecimal;
  }

  /** The fields that seven lines in order give, in terms of their values. */
  lemma OrderedFields(lines: seq<Text>) returns (f: TextFields)
    requires |lines| == 7 && ReadLines(lines, NO_FIELDS).Ok?
    requires forall k :: 0 <= k < 7 ==> HasKey(lines[k], KEYS[k])
    ensures ReadLines(lines, NO_FIELDS) == Ok(f)
    ensures f.deviceId.Some? && HexDecode(ValueOf(lines[0])) == Ok(f.deviceId.value)
    ensures f.name == Some(ValueOf(lines[1]))
    ensures f.classical.Some? && HexDecode(ValueOf(lines[2])) == Ok(f.classical.value)
    ensures f.pqc.Some? && HexDecode(ValueOf(lines[3])) == Ok(f.pqc.value)
    ensures ValueOf(lines[4]) == ED25519_V1
    ensures f.signing.Some? && HexDecode(ValueOf(lines[5])) == Ok(f.signing.value)
    ensures f.createdAt.Some? && ParseDecimal(ValueOf(lines[6])) == Ok(f.createdAt.value)
  {
    hide HexDecode, ParseDecimal, SplitOnce, ReadLines, StepField, PlainKey, HasKey, ValueOf, ValidUtf8;
    assert lines[0..] == lines;
    KeysArePlain();
    PlainIsText();
    assert HasKey(lines[0], KEYS[0]) && HasKey(lines[1], KEYS[1]);
    assert HasKey(lines[2], KEYS[2]) && HasKey(lines[3], KEYS[3]);
    assert HasKey(lines[4], KEYS[4]) && HasKey(lines[5], KEYS[5]) && HasKey(lines[6], KEYS[6]);
    var f1 := ReadsKey(lines, 0, NO_FIELDS, DEVICE_ID);
    StepDeviceId(NO_FIELDS, ValueOf(lines[0]), f1);
    var f2 := ReadsKey(lines, 1, f1, DISPLAY_NAME);
    StepName(f1, ValueOf(lines[1]), f2);
    var f3 := ReadsKey(lines, 2, f2, CLASSICAL_KEY);
    StepClassical(f2, ValueOf(lines[2]), f3);
    var f4 := ReadsKey(lines, 3, f3, PQC_KEY);
    StepPqc(f3, ValueOf(lines[3]), f4);
    var f5 := ReadsKey(lines, 4, f4, SIGNING_ALGORITHM);
    StepAlgorithm(f4, ValueOf(lines[4]), f5);
    var f6 := ReadsKey(lines, 5, f5, SIGNING_KEY);
    StepSigning(f5, ValueOf(lines[5]), f6);
    f := ReadsKey(lines, 6, f6, CREATED_AT);
    StepCreatedAt(f6, ValueOf(lines[6]), f);
    assert lines[7..] == [];
    ReadNoLines(f);
  }

  lemma ReadsKey(lines: seq<Text>, i: nat, f: TextFields, key: Text) returns (next: TextFields)
    requires i < |lines| && ReadLines(lines[i..], f).Ok? && HasKey(lines[i], key)
    ensures StepField(f, key, ValueOf(lines[i])) == Ok(next)
    ensures ReadLines(lines[i + 1..], next) == ReadLines(lines[i..], f)
  {
    hide StepField, SplitOnce, ReadLines;
    next := ReadsOk(lines, i, f);
  }

  lemma LineIsField(line: Text, key: Bytes, value: Bytes)
    requires HasKey(line, key) && ValueOf(line) == value
    ensures line == Field(key, value)
  {}

  /** A canonical accepted text is the one that is written for its identity. */
  lemma CanonicalIsWritten(text: Text)
    requires ParseText(text).Ok? && CanonicalText(text)
    ensures SerializeText(ParseText(text).value) == text
  {
    hide ValidUtf8, HexDecode, HexEncode, ParseDecimal, PrintDecimal, SplitOnce, ReadLines, Field, Joined, Lines,
         LowerHex, PlainDecimal, HasKey, ValueOf;
    var id := ParseText(text).value;
    var lines := Lines(text);
    var ls := lines[1..];
    forall k | 0 <= k < 7 ensures HasKey(ls[k], KEYS[k]) { assert HasKey(lines[k + 1], KEYS[k]); }
    var f := OrderedFields(ls);
    HexIsCanonicalExactly(ValueOf(ls[0]));
    HexIsCanonicalExactly(ValueOf(ls[2]));
    HexIsCanonicalExactly(ValueOf(ls[3]));
    HexIsCanonicalExactly(ValueOf(ls[5]));
    DecimalIsCanonicalExactly(ValueOf(ls[6]));
    LineIsField(ls[0], DEVICE_ID, ValueOf(ls[0]));
    LineIsField(ls[1], DISPLAY_NAME, ValueOf(ls[1]));
    LineIsField(ls[2], CLASSICAL_KEY, ValueOf(ls[2]));
    LineIsField(ls[3], PQC_KEY, ValueOf(ls[3]));
    LineIsField(ls[4], SIGNING_ALGORITHM, ValueOf(ls[4]));
    LineIsField(ls[5], SIGNING_KEY, ValueOf(ls[5]));
    LineIsField(ls[6], CREATED_AT, ValueOf(ls[6]));
    BuiltFrom(f);
    assert ls == FieldLines(id, id.name);
    assert TextLines(id) == lines;
  }

  lemma BuiltFrom(f: TextFields)
    requires BuildIdentity(f).Ok?
    ensures var id := BuildIdentity(f).value;
            && f.deviceId == Some(id.deviceId) && f.name == Some(id.name) && f.classical == Some(id.classical)
            && f.pqc == Some(id.pqc) && f.signing == Some(SigningKeyBytes(id)) && f.createdAt == Some(id.createdAt)
  {}

  /** A written text that reads back to its identity is canonical. */
  lemma WrittenIsCanonical(id: Identity)
    requires ParseText(SerializeText(id)) == Ok(id)
    ensures CanonicalText(SerializeText(id))
  {
    hide ValidUtf8, HexDecode, HexEncode, ParseDecimal, PrintDecimal, SplitOnce, Field, Joined, Lines, ParseText,
         LowerHex, PlainDecimal, StripReturn, FieldLines, Stripped, HasKey, ValueOf;
    ParsedTextIsUntrusted(SerializeText(id));
    TextRoundTrip(id);
    StrippedTextLines(id);
    LinesOfJoined(TextLines(id), 0);
    assert TextLines(id)[0..] == TextLines(id);
    var lines := Lines(SerializeText(id));
    assert lines == Stripped(TextLines(id))[0..] == [HEADER_LINE] + FieldLines(id, id.name);
    WrittenFields(id);
    forall k | 0 <= k < 7 ensures HasKey(lines[k + 1], KEYS[k]) { assert lines[k + 1] == FieldLines(id, id.name)[k]; }
    assert forall k :: 0 <= k < 7 ==> lines[k + 1] == FieldLines(id, id.name)[k];
  }

  lemma HexIsLower(bytes: Bytes)
    ensures LowerHex(HexEncode(bytes))
  {
    hide LowerHex, HexEncode, HexDecode;
    HexRoundTrip(bytes);
    HexIsCanonicalExactly(HexEncode(bytes));
  }

  lemma KeyAndValue(key: Bytes, value: Bytes)
    requires ValidUtf8(Field(key, value)) && ValidUtf8(value) && PlainKey(key)
    ensures HasKey(Field(key, value), key) && ValueOf(Field(key, value)) == value
  {
    hide ValidUtf8, Field;
    SplitField(key, value);
  }

  lemma WrittenFields(id: Identity)
    ensures var ls := FieldLines(id, id.name);
            && (forall k :: 0 <= k < 7 ==> HasKey(ls[k], KEYS[k]))
            && LowerHex(ValueOf(ls[0])) && LowerHex(ValueOf(ls[2]))
            && LowerHex(ValueOf(ls[3])) && LowerHex(ValueOf(ls[5]))
            && PlainDecimal(ValueOf(ls[6]))
  {
    hide ValidUtf8, HexDecode, HexEncode, ParseDecimal, PrintDecimal, SplitOnce, Field, LowerHex, PlainDecimal,
         PlainKey, HasKey, ValueOf;
    KeysArePlain();
    LiteralsArePlain();
    PlainIsText();
    FieldLinesAreText(id, id.name);
    HexIsText(id.deviceId);
    HexIsText(id.classical);
    HexIsText(id.pqc);
    HexIsText(SigningKeyBytes(id));
    DecimalIsText(id.createdAt);
    HexIsLower(id.deviceId);
    HexIsLower(id.classical);
    HexIsLower(id.pqc);
    HexIsLower(SigningKeyBytes(id));
    PrintedIsPlain(id.createdAt);
    KeyAndValue(DEVICE_ID, HexEncode(id.deviceId));
    KeyAndValue(DISPLAY_NAME, id.name);
    KeyAndValue(CLASSICAL_KEY, HexEncode(id.classical));
    KeyAndValue(PQC_KEY, HexEncode(id.pqc));
    KeyAndValue(SIGNING_ALGORITHM, ED25519_V1);
    KeyAndValue(SIGNING_KEY, HexEncode(SigningKeyBytes(id)));
    KeyAndValue(CREATED_AT, PrintDecimal(id.createdAt));
  }

  /** An accepted text is the one that is written for its identity exactly when it is canonical. */
  lemma TextIsCanonicalExactly(text: Text)
    requires ParseText(text).Ok?
    ensures SerializeText(ParseText(text).value) == text <==> CanonicalText(text)
  {
    hide ParseText, SerializeText, CanonicalText;
    if CanonicalText(text) { CanonicalIsWritten(text); }
    if SerializeText(ParseText(text).value) == text { WrittenIsCanonical(ParseText(text).value); }
  }

  // ---- two texts, one identity -------------------------------------------------------------------------------------

  /** Parsing lines that are joined by bare newlines. */
  lemma ParseOfLines(lines: seq<Text>)
    requires lines != [] && lines[0] == HEADER_LINE
    requires forall k :: 0 <= k < |lines| ==> NEWLINE !in lines[k] && StripReturn(lines[k]) == lines[k]
    ensures ValidUtf8(Joined(lines))
    ensures ParseText(Joined(lines)) ==
              var f := ReadLines(lines[1..], NO_FIELDS);
              if f.Err? then Err(f.error) else BuildIdentity(f.value)
  {
    hide ValidUtf8, ReadLines, Lines, Joined, BuildIdentity, StripReturn;
    LinesOfJoined(lines, 0);
    assert lines[0..] == lines && Stripped(lines)[0..] == Stripped(lines);
    assert Stripped(lines) == lines;
  }

  /** The device id with a plus sign for its leading zero. */
  function Respelled(id: Identity): Bytes
    requires id.deviceId[0] < 16
  {
    [PLUS, HexDigit(id.deviceId[0])] + HexEncode(id.deviceId[1..])
  }

  lemma RespelledDecodes(id: Identity)
    requires id.deviceId[0] < 16
    ensures HexArray(Respelled(id), 16) == Ok(id.deviceId) && Respelled(id) != HexEncode(id.deviceId)
    ensures ValidUtf8(Respelled(id)) && forall i :: 0 <= i < |Respelled(id)| ==> 0x2B <= Respelled(id)[i] <= 0x66
  {
    hide HexDecode, HexEncode, ValidUtf8;
    var n, rest := id.deviceId[0], id.deviceId[1..];
    assert id.deviceId == [n] + rest;
    PlusSignIsTaken(n, rest);
    HexRoundTrip(rest);
    var s := Respelled(id);
    assert forall i :: 2 <= i < |s| ==> s[i] == HexEncode(rest)[i - 2] && s[i] in HexEncode(rest);
    AsciiIsUtf8(s);
    HexHead(id.deviceId);
    assert s[0] == PLUS;
  }

  lemma HexHead(bytes: Bytes)
    requires bytes != []
    ensures |HexEncode(bytes)| == 2 * |bytes| && HexEncode(bytes)[0] == HexDigit(bytes[0] / 16)
  {
    HexRoundTrip(bytes);
  }

  /** The respelled line differs from the written one, in its bytes only. */
  lemma RespelledDiffers(id: Identity)
    requires id.deviceId[0] < 16
    ensures Field(DEVICE_ID, Respelled(id)) != Field(DEVICE_ID, HexEncode(id.deviceId))
    ensures |Field(DEVICE_ID, Respelled(id))| == |Field(DEVICE_ID, HexEncode(id.deviceId))|
  {
    hide HexEncode;
    HexHead(id.deviceId);
    HexHead(id.deviceId[1..]);
    var line, written := Field(DEVICE_ID, Respelled(id)), Field(DEVICE_ID, HexEncode(id.deviceId));
    assert line[|DEVICE_ID| + 1] == PLUS && written[|DEVICE_ID| + 1] == HexDigit(0);
  }

  /** The format has no unique text: every identity that survives it and whose device id starts
      with a zero digit has a second text, with a plus sign in its place. */
  lemma TwoTextsOneIdentity(id: Identity)
    requires ParseText(SerializeText(id)) == Ok(id) && id.deviceId[0] < 16
    ensures exists text: Text :: text != SerializeText(id) && ParseText(text) == Ok(id)
  {
    hide ValidUtf8, HexDecode, HexEncode, SplitOnce, Field, Joined, ParseText, ReadLines, StepField, PlainKey,
         StripReturn, Respelled, HexArray, BuildIdentity;
    var lines := TextLines(id);
    ParsedTextIsUntrusted(SerializeText(id));
    TextRoundTrip(id);
    StrippedTextLines(id);
    RespelledDecodes(id);
    KeysArePlain();
    PlainIsText();
    FieldIsText(DEVICE_ID, Respelled(id));
    var line := Field(DEVICE_ID, Respelled(id));
    RespelledLine(id);
    var spelled := lines[1 := line];
    WrittenLinesArePlain(id);
    ParseOfLines(lines);
    ParseOfLines(spelled);
    SameDeviceId(id);
    RespelledDiffers(id);
    assert spelled[1..] == [line] + lines[2..] && lines[1..] == [lines[1]] + lines[2..];
    assert Joined(spelled) != Joined(lines) by { OtherLineOtherText(lines, line); }
  }

  /** So two texts that differ are read as the same identity. */
  lemma TextIsNotCanonical()
    ensures exists s: Text, t: Text :: s != t && ParseText(s).Ok? && ParseText(s) == ParseText(t)
  {
    hide ParseText, SerializeText;
    assert ValidUtf8([0x61]);
    var name: Text := [0x61];
    var id := Identity(Zeros(16), name, Zeros(32), Zeros(1184), Some(SigningKey(Ed25519V1, Zeros(32))), 0, Untrusted);
    TextRoundTripExactly(id);
    TwoTextsOneIdentity(id);
    var text: Text :| text != SerializeText(id) && ParseText(text) == Ok(id);
    assert ParseText(SerializeText(id)).Ok?;
  }

  lemma WrittenLinesArePlain(id: Identity)
    requires NEWLINE !in id.name && StripReturn(id.name) == id.name
    ensures forall k :: 0 <= k < 8 ==> NEWLINE !in TextLines(id)[k] && StripReturn(TextLines(id)[k]) == TextLines(id)[k]
  {
    hide ValidUtf8, FieldLines, StripReturn;
    StrippedTextLines(id);
    assert Stripped(TextLines(id)) == TextLines(id);
    forall k | 0 <= k < 8 ensures StripReturn(TextLines(id)[k]) == TextLines(id)[k] {
      assert Stripped(TextLines(id))[k] == TextLines(id)[k];
    }
  }

  lemma RespelledLine(id: Identity)
    requires id.deviceId[0] < 16 && ValidUtf8(Respelled(id)) && ValidUtf8(Field(DEVICE_ID, Respelled(id)))
    requires forall i :: 0 <= i < |Respelled(id)| ==> 0x2B <= Respelled(id)[i] <= 0x66
    ensures var line := Field(DEVICE_ID, Respelled(id)); NEWLINE !in line && StripReturn(line) == line
  {
    hide ValidUtf8, Respelled;
    KeysArePlain();
    StripField(DEVICE_ID, Respelled(id));
    assert Respelled(id) != [] by { RespelledLength(id); }
  }

  lemma RespelledLength(id: Identity)
    requires id.deviceId[0] < 16
    ensures |Respelled(id)| >= 2
  {}

  lemma SameDeviceId(id: Identity)
    requires id.deviceId[0] < 16 && ValidUtf8(Respelled(id)) && ValidUtf8(Field(DEVICE_ID, Respelled(id)))
    requires HexArray(Respelled(id), 16) == Ok(id.deviceId)
    ensures var rest := TextLines(id)[2..];
            ReadLines([Field(DEVICE_ID, Respelled(id))] + rest, NO_FIELDS)
            == ReadLines([TextLines(id)[1]] + rest, NO_FIELDS)
  {
    hide ValidUtf8, Respelled, Field, HexEncode, HexDecode, ReadLines, PlainKey;
    KeysArePlain();
    PlainIsText();
    FieldLinesAreText(id, id.name);
    HexIsText(id.deviceId);
    HexRoundTrip(id.deviceId);
    ReadField(DEVICE_ID, Respelled(id), TextLines(id)[2..], NO_FIELDS);
    ReadField(DEVICE_ID, HexEncode(id.deviceId), TextLines(id)[2..], NO_FIELDS);
  }

  lemma OtherLineOtherText(lines: seq<Text>, line: Text)
    requires |lines| == 8 && line != lines[1] && |line| == |lines[1]|
    ensures Joined(lines[1 := line]) != Joined(lines)
  {
    hide ValidUtf8;
    var other := lines[1 := line];
    assert other[1..][1..] == lines[1..][1..];
    var tail := [NEWLINE] + Joined(lines[1..][1..]);
    JoinedCons(lines);
    JoinedCons(other);
    JoinedCons(lines[1..]);
    JoinedCons(other[1..]);
    var n := |lines[0]| + 1;
    assert Joined(lines)[n..n + |line|] == lines[1];
    assert Joined(other)[n..n + |line|] == line;
  }

  // ---- the loops ----------------------------------------------------------------------------------------------------

  /** `hex_encode`, byte by byte. */
  method EncodeHex(bytes: Bytes) returns (out: Bytes)
    ensures out == HexEncode(bytes)
  {
    out := [];
    assert bytes[0..] == bytes;
    for i := 0 to |bytes|
      invariant HexEncode(bytes) == out + HexEncode(bytes[i..])
    {
      assert bytes[i..][1..] == bytes[i + 1..];
      out := out + [HexDigit(bytes[i] / 16), HexDigit(bytes[i] % 16)];
    }
  }

  /** `hex_decode`, pair by pair. */
  method DecodeHex(s: Bytes) returns (r: Result<Bytes, DeviceError>)
    ensures r == HexDecode(s)
  {
    if |s| % 2 != 0 { return Err(InvalidFileFormat); }
    var out: Bytes := [];
    var at := 0;
    assert s[0..] == s;
    FrontNone(HexDecode(s));
    while at < |s|
      invariant at <= |s| && (|s| - at) % 2 == 0
      invariant HexDecode(s) == Front(out, HexDecode(s[at..]))
    {
      assert s[at..][2..] == s[at + 2..];
      var pair := HexPair(s[at], s[at + 1]);
      if pair.None? { return Err(InvalidFileFormat); }
      FrontMore(out, [pair.value], HexDecode(s[at + 2..]));
      out := out + [pair.value];
      at := at + 2;
    }
    assert s[at..] == [] && out + [] == out;
    r := Ok(out);
  }

  /** `deserialize_identity_text`: the line loop over the optional fields. */
  method ParseIdentityText(text: Text) returns (r: Result<Identity, DeviceError>)
    ensures r == ParseText(text)
  {
    hide StepLine, Lines;
    var lines := Lines(text);
    if lines == [] || lines[0] != HEADER_LINE { return Err(InvalidFileFormat); }
    var fields := NO_FIELDS;
    for i := 1 to |lines|
      invariant ReadLines(lines[1..], NO_FIELDS) == ReadLines(lines[i..], fields)
    {
      assert lines[i..][1..] == lines[i + 1..];
      fields :- StepLine(fields, lines[i]);
    }
    r := BuildIdentity(fields);
  }
}
