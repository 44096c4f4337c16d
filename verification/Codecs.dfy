// The codecs of src/codec/codec.rs. Floating point, calendar text and wide strings belong
// to libraries: their codecs are arbitrary functions, given as a `Foreign` value.
module Codecs {
  import opened Prelude
  import opened BigEndian
  import opened Text

  datatype Json =
    | JNull
    | JBool(b: bool)
    | JInt(n: int)
    | JFloat(r: real)
    | JString(s: string)
    | JArray(items: seq<Json>)
    | JObject(fields: map<string, Json>)

  datatype Codec =
    | BooleanCodec | ByteCodec | IntegerCodec | WordCodec | DWordCodec | DIntCodec | LIntCodec
    | RealCodec | StringCodec | DateTimeCodec | BigDecimalCodec | IpCodec | CharCodec
    | WStringCodec | IntegerAsBigDecimalCodec | LongAsIntCodec | LongAsDateTimeCodec

  /** The codecs that are not modelled, and the JSON text of a value. */
  datatype Foreign = Foreign(
    encode: (Codec, Json) -> Result<seq<Byte>>,
    decode: (Codec, seq<Byte>) -> Result<Json>,
    text: Json -> string)

  /** The registry: names are case sensitive. */
  function Lookup(name: string): Option<Codec> {
    match name
    case "boolean" => Some(BooleanCodec)
    case "byte" => Some(ByteCodec)
    case "integer" => Some(IntegerCodec)
    case "word" => Some(WordCodec)
    case "dword" => Some(DWordCodec)
    case "dint" => Some(DIntCodec)
    case "lint" => Some(LIntCodec)
    case "real" => Some(RealCodec)
    case "string" => Some(StringCodec)
    case "datetime" => Some(DateTimeCodec)
    case "bigdecimal" => Some(BigDecimalCodec)
    case "ip" => Some(IpCodec)
    case "char" => Some(CharCodec)
    case "wstring" => Some(WStringCodec)
    case "intAsBigDecimal" => Some(IntegerAsBigDecimalCodec)
    case "longAsInt" => Some(LongAsIntCodec)
    case "longAsDateTime" => Some(LongAsDateTimeCodec)
    case _ => None
  }

  /** Bytes of the integer codecs: `Some((k, signed))`. */
  function IntegerShape(c: Codec): Option<(nat, bool)> {
    match c
    case ByteCodec => Some((1, false))
    case IntegerCodec | IntegerAsBigDecimalCodec => Some((2, true))
    case WordCodec => Some((2, false))
    case DWordCodec => Some((4, false))
    case DIntCodec => Some((4, true))
    case LIntCodec | LongAsIntCodec => Some((8, true))
    case _ => None
  }

  /** Width of every encoding of the modelled fixed-width codecs. */
  function FixedWidth(c: Codec): Option<nat> {
    match c
    case BooleanCodec | CharCodec => Some(1)
    case IpCodec => Some(4)
    case _ => (match IntegerShape(c) case Some(shape) => Some(shape.0) case None => None)
  }

  /** as_i64().unwrap_or(0) and as_u64().unwrap_or(0). */
  function AsI64(v: Json): int {
    if v.JInt? && -0x8000_0000_0000_0000 <= v.n < 0x8000_0000_0000_0000 then v.n else 0
  }

  function AsU64(v: Json): int {
    if v.JInt? && 0 <= v.n < TWO_TO_THE_64 then v.n else 0
  }

  /** The number an integer codec writes: numbers are cast, texts parsed, failures are 0. */
  function IntegerOf(v: Json, k: nat, signed: bool): Option<int> {
    match v
    case JInt(_) | JFloat(_) => Some(if signed then WrapSigned(k, AsI64(v)) else WrapUnsigned(k, AsU64(v)))
    case JString(s) =>
      var half := Pow256(k) / 2;
      Some((if signed then ParseInt(s, -half, half - 1) else ParseInt(s, 0, Pow256(k) - 1)).GetOr(0))
    case _ => None
  }

  function ToLower(s: string): (t: string)
    ensures |t| == |s|
  {
    seq(|s|, i requires 0 <= i < |s| => if 'A' <= s[i] <= 'Z' then s[i] + 32 as char else s[i])
  }

  function EncodeBoolean(v: Json): Result<seq<Byte>> {
    match v
    case JBool(b) => Ok([if b then 1 else 0])
    case JInt(n) => Ok([if n != 0 then 1 else 0])
    case JFloat(r) => Ok([if r != 0.0 then 1 else 0])
    case JString(s) => Ok([if ToLower(s) in {"true", "1", "on"} then 1 else 0])
    case _ => Err("Invalid boolean")
  }

  function ParseOctets(parts: seq<string>): Result<seq<Byte>> {
    if parts == [] then Ok([])
    else
      match (ParseInt(parts[0], 0, 255), ParseOctets(parts[1..]))
      case (Some(octet), Ok(rest)) => Ok([octet] + rest)
      case _ => Err("Bad IP")
  }

  function EncodeIp(v: Json): Result<seq<Byte>> {
    if !v.JString? then Err("IP must be string")
    else
      match ParseOctets(SplitDots(v.s))
      case Ok(octets) => if |octets| == 4 then Ok(octets) else Err("Invalid IP")
      case Err(e) => Err(e)
  }

  function PrintIp(b: seq<Byte>): string
    requires |b| >= 4
  {
    PrintNat(b[0]) + "." + (PrintNat(b[1]) + "." + (PrintNat(b[2]) + "." + PrintNat(b[3])))
  }

  function EncodeCharacter(v: Json): Result<seq<Byte>> {
    match v
    case JString(s) => Ok([if s == "" then 32 else s[0] as int % 256])
    case JInt(_) | JFloat(_) => Ok([AsU64(v) % 256])
    case _ => Err("Invalid char")
  }

  function EncodeString(foreign: Foreign, v: Json): Result<seq<Byte>> {
    var bytes := EncodeUtf8(if v.JString? then v.s else foreign.text(v));
    if |bytes| > 254 then Err("Too long") else Ok([254, |bytes|] + bytes)
  }

  function DecodeString(b: seq<Byte>): Result<Json> {
    if |b| < 2 then Err("Header")
    else if |b| - 2 < b[1] then Err("Truncated")
    else
      match DecodeUtf8(b[2..2 + b[1] as int])
      case Some(s) => Ok(JString(s))
      case None => Err("Utf8")
  }

  function EncodeInteger(c: Codec, v: Json): Result<seq<Byte>>
    requires IntegerShape(c).Some?
  {
    var (k, signed) := IntegerShape(c).value;
    match IntegerOf(v, k, signed)
    case Some(n) => Ok(Write(k, n))
    case None => Err("Invalid number")
  }

  function DecodeInteger(c: Codec, b: seq<Byte>): Result<Json>
    requires IntegerShape(c).Some?
  {
    var (k, signed) := IntegerShape(c).value;
    if |b| < k then Err("Not enough")
    else
      var n := if signed then ReadSigned(b[..k]) else ReadUnsigned(b[..k]);
      if c == IntegerAsBigDecimalCodec then Ok(JString(PrintInt(n)))
      else if c == LongAsIntCodec then Ok(JInt(WrapSigned(2, n)))
      else Ok(JInt(n))
  }

  function EncodeValue(foreign: Foreign, c: Codec, v: Json): Result<seq<Byte>> {
    match c
    case BooleanCodec => EncodeBoolean(v)
    case IpCodec => EncodeIp(v)
    case CharCodec => EncodeCharacter(v)
    case StringCodec => EncodeString(foreign, v)
    case RealCodec | DateTimeCodec | BigDecimalCodec | WStringCodec | LongAsDateTimeCodec =>
      foreign.encode(c, v)
    case _ => EncodeInteger(c, v)
  }

  function DecodeValue(foreign: Foreign, c: Codec, b: seq<Byte>): Result<Json> {
    match c
    case BooleanCodec => if b == [] then Err("Empty") else Ok(JBool(b[0] != 0))
    case IpCodec => if |b| < 4 then Err("Not enough") else Ok(JString(PrintIp(b)))
    case CharCodec => if b == [] then Err("Empty") else Ok(JString([b[0] as char]))
    case StringCodec => DecodeString(b)
    case RealCodec | DateTimeCodec | BigDecimalCodec | WStringCodec | LongAsDateTimeCodec =>
      foreign.decode(c, b)
    case _ => DecodeInteger(c, b)
  }

  // ----- what the codecs promise -----

  /** A fixed-width codec never writes more or fewer bytes than its width. */
  lemma EncodingsHaveFixedWidth(foreign: Foreign, c: Codec, v: Json)
    requires FixedWidth(c).Some? && EncodeValue(foreign, c, v).Ok?
    ensures |EncodeValue(foreign, c, v).value| == FixedWidth(c).value
  {
  }

  lemma IntegerOfFits(v: Json, k: nat, signed: bool)
    requires k > 0 && IntegerOf(v, k, signed).Some?
    ensures var n := IntegerOf(v, k, signed).value;
            if signed then WrapSigned(k, n) == n else WrapUnsigned(k, n) == n
  {
    var n := IntegerOf(v, k, signed).value;
    var p := Pow256(k);
    assert 0 <= AsU64(v) % p < p && 0 <= AsI64(v) % p < p;
    assert p == 2 * (p / 2);
    WrapKeepsExactlyWhatFits(k, n);
  }

  /** The value an encoded number reads back as. */
  function NormalNumber(c: Codec, n: int): Json {
    match c
    case IntegerAsBigDecimalCodec => JString(PrintInt(n))
    case LongAsIntCodec => JInt(WrapSigned(2, n))
    case _ => JInt(n)
  }

  lemma NumberReadsBack(k: nat, n: int, signed: bool)
    requires if signed then WrapSigned(k, n) == n else WrapUnsigned(k, n) == n
    ensures var b := Write(k, n);
            b[..k] == b && (if signed then ReadSigned(b[..k]) else ReadUnsigned(b[..k])) == n
  {
    ReadWrite(k, n);
    assert Write(k, n)[..k] == Write(k, n);
  }

  lemma IntegerReadsBack(c: Codec, v: Json)
    requires IntegerShape(c).Some? && EncodeInteger(c, v).Ok?
    ensures var (k, signed) := IntegerShape(c).value;
            DecodeInteger(c, EncodeInteger(c, v).value) == Ok(NormalNumber(c, IntegerOf(v, k, signed).value))
  {
    hide IntegerOf, Write, ReadSigned, ReadUnsigned, WrapSigned, WrapUnsigned, PrintInt;
    var (k, signed) := IntegerShape(c).value;
    IntegerOfFits(v, k, signed);
    NumberReadsBack(k, IntegerOf(v, k, signed).value, signed);
  }

  /** Decoding an encoded number gives the two's-complement wrap of the number, for every
      integer codec and every value it accepts, out-of-range numbers included. */
  lemma IntegerRoundTrip(foreign: Foreign, c: Codec, v: Json)
    requires IntegerShape(c).Some?
    ensures var (k, signed) := IntegerShape(c).value;
            && (EncodeValue(foreign, c, v).Ok? <==> v.JInt? || v.JFloat? || v.JString?)
            && (EncodeValue(foreign, c, v).Ok? ==>
                DecodeValue(foreign, c, EncodeValue(foreign, c, v).value)
                == Ok(NormalNumber(c, IntegerOf(v, k, signed).value)))
  {
    if EncodeInteger(c, v).Ok? {
      IntegerReadsBack(c, v);
    }
  }

  /** A number comes back unchanged exactly when it fits the codec's bytes. */
  lemma NumberSurvivesExactlyWhenItFits(foreign: Foreign, c: Codec, n: int)
    requires c in {ByteCodec, WordCodec, DWordCodec, IntegerCodec, DIntCodec, LIntCodec}
    ensures var (k, signed) := IntegerShape(c).value;
            && EncodeValue(foreign, c, JInt(n)).Ok?
            && (DecodeValue(foreign, c, EncodeValue(foreign, c, JInt(n)).value) == Ok(JInt(n))
                <==> if signed then FitsSigned(k, n) else 0 <= n < Pow256(k))
  {
    hide EncodeValue, DecodeValue, PrintInt, Pow256, WrapSigned, WrapUnsigned;
    var (k, signed) := IntegerShape(c).value;
    Widths();
    IntegerRoundTrip(foreign, c, JInt(n));
    WrapKeepsExactlyWhatFits(k, n);
    WrapKeepsExactlyWhatFits(k, 0);
  }

  /** Encoding a decoded value restores the bytes: always for the plain integers, decimal
      strings, characters and addresses; for booleans exactly when the byte is 0 or 1; for
      narrowed longs exactly when the long fits sixteen bits. */
  lemma BytesRoundTrip(foreign: Foreign, c: Codec, b: seq<Byte>)
    requires FixedWidth(c) == Some(|b|)
    ensures DecodeValue(foreign, c, b).Ok?
    ensures EncodeValue(foreign, c, DecodeValue(foreign, c, b).value) == Ok(b) <==>
            match c
            case BooleanCodec => b[0] <= 1
            case LongAsIntCodec => FitsSigned(2, ReadSigned(b))
            case _ => true
  {
    assert b[..|b|] == b;
    if IntegerShape(c).Some? {
      IntegerBytesRoundTrip(c, b);
    } else if c == IpCodec {
      IpBytesRoundTrip(b);
    } else {
      assert b == [b[0]];
    }
  }

  lemma IntegerBytesRoundTrip(c: Codec, b: seq<Byte>)
    requires IntegerShape(c).Some? && |b| == IntegerShape(c).value.0
    ensures DecodeInteger(c, b).Ok?
    ensures EncodeInteger(c, DecodeInteger(c, b).value) == Ok(b) <==>
            (c == LongAsIntCodec ==> FitsSigned(2, ReadSigned(b)))
  {
    hide Write, ReadSigned, ReadUnsigned, FitsSigned, WrapSigned, IntegerOf;
    var (k, signed) := IntegerShape(c).value;
    assert b[..k] == b;
    WriteReadSigned(b);
    if c == IntegerAsBigDecimalCodec {
      DecimalTextBytes(b);
    } else if c == LongAsIntCodec {
      LongAsIntBytes(b);
    } else {
      PlainIntegerBytes(b, signed);
    }
  }

  lemma DecimalTextBytes(b: seq<Byte>)
    requires |b| == 2
    ensures IntegerOf(JString(PrintInt(ReadSigned(b))), 2, true) == Some(ReadSigned(b))
  {
    hide Write, ReadSigned, PrintInt, ParseInt;
    Widths();
    WriteReadSigned(b);
    ParsePrint(ReadSigned(b), -0x8000, 0x7FFF);
  }

  lemma PlainIntegerBytes(b: seq<Byte>, signed: bool)
    requires |b| in {1, 2, 4, 8}
    ensures IntegerOf(JInt(if signed then ReadSigned(b) else ReadUnsigned(b)), |b|, signed)
            == Some(if signed then ReadSigned(b) else ReadUnsigned(b))
  {
    Widths();
    ReadIsBounded(b);
    WrapKeepsExactlyWhatFits(|b|, ReadSigned(b));
    WrapKeepsExactlyWhatFits(|b|, ReadUnsigned(b));
  }

  lemma LongAsIntBytes(b: seq<Byte>)
    requires |b| == 8
    ensures EncodeInteger(LongAsIntCodec, JInt(WrapSigned(2, ReadSigned(b)))) == Ok(b)
            <==> FitsSigned(2, ReadSigned(b))
  {
    var n := ReadSigned(b);
    var m := WrapSigned(2, n);
    Widths();
    WriteReadSigned(b);
    WrapKeepsExactlyWhatFits(2, n);
    NarrowFits(n);
    WrapKeepsExactlyWhatFits(8, m);
    ReadWrite(8, m);
  }

  lemma NarrowFits(n: int)
    ensures FitsSigned(2, WrapSigned(2, n))
  {
    Widths();
    assert 0 <= n % Pow256(2) < Pow256(2);
  }

  lemma IpPartsRoundTrip(a: Byte, rest: string)
    ensures SplitDots(PrintNat(a) + "." + rest) == [PrintNat(a)] + SplitDots(rest)
    ensures SplitDots(PrintNat(a)) == [PrintNat(a)]
    ensures ParseInt(PrintNat(a), 0, 255) == Some(a)
  {
    SplitAtDot(PrintNat(a), rest);
    ParsePrint(a, 0, 255);
  }

  lemma IpBytesRoundTrip(b: seq<Byte>)
    requires |b| == 4
    ensures EncodeIp(JString(PrintIp(b))) == Ok(b)
  {
    var s3 := PrintNat(b[3]);
    var s2 := PrintNat(b[2]) + "." + s3;
    var s1 := PrintNat(b[1]) + "." + s2;
    IpPartsRoundTrip(b[3], "");
    IpPartsRoundTrip(b[2], s3);
    IpPartsRoundTrip(b[1], s2);
    IpPartsRoundTrip(b[0], s1);
    var parts := [PrintNat(b[0]), PrintNat(b[1]), PrintNat(b[2]), PrintNat(b[3])];
    assert SplitDots(PrintIp(b)) == parts;
    OctetsRoundTrip(b);
    assert seq(|b|, i requires 0 <= i < |b| => PrintNat(b[i])) == parts;
  }

  lemma {:induction false} OctetsRoundTrip(b: seq<Byte>)
    ensures ParseOctets(seq(|b|, i requires 0 <= i < |b| => PrintNat(b[i]))) == Ok(b)
  {
    if b != [] {
      var rest := b[1..];
      OctetsRoundTrip(rest);
      ParsePrint(b[0], 0, 255);
      assert seq(|b|, i requires 0 <= i < |b| => PrintNat(b[i]))[1..]
          == seq(|rest|, i requires 0 <= i < |rest| => PrintNat(rest[i]));
      assert b == [b[0]] + rest;
    }
  }

  /** Every accepted address text has one canonical text: two texts name the same address
      exactly when they have the same canonical text, which is itself accepted and canonical. */
  lemma IpTextsAreCanonical(s: string, t: string)
    ensures var a, b := EncodeIp(JString(s)), EncodeIp(JString(t));
            a.Ok? && b.Ok? ==>
              && |a.value| == 4 == |b.value|
              && EncodeIp(JString(PrintIp(a.value))) == a
              && (a == b <==> PrintIp(a.value) == PrintIp(b.value))
  {
    var a, b := EncodeIp(JString(s)), EncodeIp(JString(t));
    if a.Ok? && b.Ok? {
      IpBytesRoundTrip(a.value);
      IpBytesRoundTrip(b.value);
    }
  }

  /** A string of at most 254 UTF-8 bytes survives, whatever bytes follow it in the block. */
  lemma StringRoundTrip(foreign: Foreign, s: string, after: seq<Byte>)
    ensures EncodeValue(foreign, StringCodec, JString(s)).Ok? <==> |EncodeUtf8(s)| <= 254
    ensures EncodeValue(foreign, StringCodec, JString(s)).Ok? ==>
            DecodeValue(foreign, StringCodec, EncodeValue(foreign, StringCodec, JString(s)).value + after)
            == Ok(JString(s))
  {
    var bytes := EncodeUtf8(s);
    if |bytes| <= 254 {
      var b := [254, |bytes|] + bytes + after;
      assert b[2..2 + |bytes|] == bytes;
      DecodeEncodeUtf8(s);
    }
  }

  /** What an untouched slot reads back as. */
  lemma ZeroBytes(foreign: Foreign, c: Codec)
    requires FixedWidth(c).Some?
    ensures DecodeValue(foreign, c, Zeros(FixedWidth(c).value)) ==
            Ok(match c
               case BooleanCodec => JBool(false)
               case CharCodec => JString([0 as char])
               case IpCodec => JString("0.0.0.0")
               case IntegerAsBigDecimalCodec => JString("0")
               case _ => JInt(0))
  {
    var w := FixedWidth(c).value;
    var z := Zeros(w);
    assert z[..w] == z;
    assert PrintNat(0) == "0";
    ZerosReadAsZero(w);
    Widths();
    if c == LongAsIntCodec {
      WrapKeepsExactlyWhatFits(2, 0);
    } else if c == IpCodec {
      assert PrintIp(z) == "0.0.0.0";
    }
  }

  lemma {:induction false} ZerosReadAsZero(k: nat)
    ensures ReadUnsigned(Zeros(k)) == 0 && ReadSigned(Zeros(k)) == 0
  {
    if k > 0 {
      assert Front(Zeros(k)) == Zeros(k - 1);
      ZerosReadAsZero(k - 1);
    }
  }

  // ----- what is on the wire, without the functions that compute it -----

  predicate FitsBytes(k: nat, signed: bool, n: int) {
    if signed then FitsSigned(k, n) else 0 <= n < Pow256(k)
  }

  /** The 64-bit range a JSON integer is read in. */
  predicate ReadsAsInteger(signed: bool, n: int) {
    if signed then -0x8000_0000_0000_0000 <= n < 0x8000_0000_0000_0000 else 0 <= n < TWO_TO_THE_64
  }

  lemma WrappingKeepsTheBytes(k: nat, n: int)
    ensures Write(k, WrapSigned(k, n)) == Write(k, n) == Write(k, WrapUnsigned(k, n))
  {
    var b := Write(k, n);
    ReadWrite(k, n);
    WriteReadSigned(b);
  }

  /** A number is cut to the codec's bytes, and read as 0 first if it is no 64-bit integer. */
  lemma NumbersOnTheWire(foreign: Foreign, c: Codec, v: Json)
    requires IntegerShape(c).Some?
    ensures var (k, signed) := IntegerShape(c).value;
            && (v.JInt? ==> EncodeValue(foreign, c, v) == Ok(Write(k, if ReadsAsInteger(signed, v.n) then v.n else 0)))
            && (v.JFloat? ==> EncodeValue(foreign, c, v) == Ok(Write(k, 0)))
            && (!v.JInt? && !v.JFloat? && !v.JString? ==> EncodeValue(foreign, c, v).Err?)
  {
    hide Write, WrapSigned, WrapUnsigned;
    var (k, signed) := IntegerShape(c).value;
    WrappingKeepsTheBytes(k, AsI64(v));
    WrappingKeepsTheBytes(k, AsU64(v));
  }

  /** A text is written as the number it spells if that fits the codec's type, otherwise as 0. */
  lemma TextsOnTheWire(foreign: Foreign, c: Codec, s: string)
    requires IntegerShape(c).Some?
    ensures var (k, signed) := IntegerShape(c).value;
            && (forall n :: Spells(s, n, signed) && FitsBytes(k, signed, n) ==>
                  EncodeValue(foreign, c, JString(s)) == Ok(Write(k, n)))
            && ((forall n :: Spells(s, n, signed) ==> !FitsBytes(k, signed, n)) ==>
                  EncodeValue(foreign, c, JString(s)) == Ok(Write(k, 0)))
  {
    hide Write, Spells, ParseInt;
    var (k, signed) := IntegerShape(c).value;
    var half := Pow256(k) / 2;
    var low, high := if signed then -half else 0, if signed then half - 1 else Pow256(k) - 1;
    ShapesHaveBytes(c);
    forall n ensures ParseInt(s, low, high) == Some(n) <==> Spells(s, n, signed) && FitsBytes(k, signed, n) {
      ParsesExactlySpellings(s, n, low, high);
    }
    if ParseInt(s, low, high).Some? {
      assert ParseInt(s, low, high) == Some(ParseInt(s, low, high).value);
    }
  }

  lemma ShapesHaveBytes(c: Codec)
    requires IntegerShape(c).Some?
    ensures Pow256(IntegerShape(c).value.0) >= 256
  {
    Widths();
  }

  /** A fixed-width codec decodes exactly the byte strings that hold its width, and looks at
      no byte behind it. */
  lemma ShortBytesFail(foreign: Foreign, c: Codec, b: seq<Byte>)
    requires FixedWidth(c).Some?
    ensures DecodeValue(foreign, c, b).Ok? <==> |b| >= FixedWidth(c).value
    ensures |b| >= FixedWidth(c).value ==>
              DecodeValue(foreign, c, b) == DecodeValue(foreign, c, b[..FixedWidth(c).value])
  {
    if IntegerShape(c).Some? && |b| >= FixedWidth(c).value {
      var k := IntegerShape(c).value.0;
      assert b[..k][..k] == b[..k];
      hide WrapSigned, PrintInt, ReadSigned, ReadUnsigned;
    }
  }

  predicate SameIgnoringCase(s: string, lower: string) {
    && |s| == |lower|
    && forall i :: 0 <= i < |s| ==> s[i] == lower[i] || ('A' <= s[i] <= 'Z' && lower[i] == s[i] + 32 as char)
  }

  lemma LoweredMeansSame(s: string, lower: string)
    requires forall c :: c in lower ==> !('A' <= c <= 'Z')
    ensures ToLower(s) == lower <==> SameIgnoringCase(s, lower)
  {
    if ToLower(s) == lower {
      forall i | 0 <= i < |s|
        ensures s[i] == lower[i] || ('A' <= s[i] <= 'Z' && lower[i] == s[i] + 32 as char)
      {
        assert ToLower(s)[i] == lower[i];
      }
    }
    if SameIgnoringCase(s, lower) {
      forall i | 0 <= i < |s| ensures ToLower(s)[i] == lower[i] {
        assert lower[i] in lower;
      }
    }
  }

  predicate MeansTrue(v: Json) {
    match v
    case JBool(b) => b
    case JInt(n) => n != 0
    case JFloat(x) => x != 0.0
    case JString(s) => SameIgnoringCase(s, "true") || SameIgnoringCase(s, "1") || SameIgnoringCase(s, "on")
    case _ => false
  }

  /** Booleans, numbers and texts read back as booleans: what is not 0, and the three words
      for true in any case, as true. Nothing else is accepted. */
  lemma BooleansReadBack(foreign: Foreign, v: Json)
    ensures var r := EncodeValue(foreign, BooleanCodec, v);
            && (r.Ok? <==> v.JBool? || v.JInt? || v.JFloat? || v.JString?)
            && (r.Ok? ==> DecodeValue(foreign, BooleanCodec, r.value) == Ok(JBool(MeansTrue(v))) && r.value[0] <= 1)
  {
    if v.JString? {
      LoweredMeansSame(v.s, "true");
      LoweredMeansSame(v.s, "1");
      LoweredMeansSame(v.s, "on");
    }
  }

  /** A text reads back as its first character, a blank if it has none, a number as the
      character of that code; both keep their low eight bits only. So a text survives exactly
      if it is one character of at most eight bits. */
  lemma CharactersReadBack(foreign: Foreign, v: Json)
    ensures var r := EncodeValue(foreign, CharCodec, v);
            && (r.Ok? <==> v.JInt? || v.JFloat? || v.JString?)
            && (r.Ok? ==>
                var code := match v
                  case JString(s) => if s == "" then 32 else s[0] as int
                  case JInt(n) => if ReadsAsInteger(false, n) then n else 0
                  case _ => 0;
                DecodeValue(foreign, CharCodec, r.value) == Ok(JString([(code % 256) as char])))
            && (v.JString? ==>
                (DecodeValue(foreign, CharCodec, r.value) == Ok(v) <==> |v.s| == 1 && v.s[0] as int < 256))
  {
    if v.JString? && v.s != "" {
      var low: string := [(v.s[0] as int % 256) as char];
      assert v.s == low <==> |v.s| == 1 && v.s[0] == low[0];
    }
  }

  /** The wire form of a string: capacity 254, the length in bytes, the UTF-8 bytes. What is
      no string is written as its JSON text. */
  lemma StringsOnTheWire(foreign: Foreign, v: Json)
    ensures var utf8 := EncodeUtf8(if v.JString? then v.s else foreign.text(v));
            var r := EncodeValue(foreign, StringCodec, v);
            && (r.Ok? <==> |utf8| <= 254)
            && (r.Ok? ==> |r.value| == 2 + |utf8| && r.value[0] == 254 && r.value[1] == |utf8| && r.value[2..] == utf8)
  {
  }

  /** Exactly the byte strings that hold, behind the header, as many bytes of valid UTF-8 as
      it announces are decoded; the capacity and what follows are not looked at. */
  lemma StringsDecodeExactly(foreign: Foreign, b: seq<Byte>, v: Json)
    ensures DecodeValue(foreign, StringCodec, b) == Ok(v) <==>
            && v.JString? && |b| >= 2 && 2 + b[1] <= |b|
            && b[2..2 + b[1]] == EncodeUtf8(v.s)
  {
    if |b| >= 2 && 2 + b[1] <= |b| {
      EncodeDecodeUtf8(b[2..2 + b[1]]);
      if v.JString? {
        DecodeEncodeUtf8(v.s);
      }
    }
  }

  /** Four parts between dots, each spelling the octet. */
  ghost predicate OctetTexts(parts: seq<string>, b: seq<Byte>) {
    && |parts| == |b| == 4
    && forall i :: 0 <= i < 4 ==> '.' !in parts[i] && Spells(parts[i], b[i], false)
  }

  lemma {:induction false} OctetsParseEach(parts: seq<string>, b: seq<Byte>)
    ensures ParseOctets(parts) == Ok(b) <==>
            |parts| == |b| && forall i :: 0 <= i < |b| ==> ParseInt(parts[i], 0, 255) == Some(b[i])
  {
    if parts != [] {
      var rest := parts[1..];
      if b != [] {
        OctetsParseEach(rest, b[1..]);
        assert b == [b[0]] + b[1..];
        assert forall i :: 0 < i < |parts| ==> parts[i] == rest[i - 1];
      }
      if ParseOctets(parts).Ok? {
        OctetsParseEach(rest, ParseOctets(rest).value);
      }
    }
  }

  /** The accepted address texts are exactly four spelt octets joined by dots. */
  lemma IpTextsAccepted(s: string, b: seq<Byte>)
    ensures EncodeIp(JString(s)) == Ok(b) <==> exists parts :: OctetTexts(parts, b) && s == JoinDots(parts)
    ensures forall v: Json :: EncodeIp(v).Ok? ==> v.JString?
  {
    hide Spells, ParseInt, SplitDots, JoinDots;
    var split := SplitDots(s);
    JoiningUndoesSplitting(s);
    OctetsParseEach(split, b);
    forall part: string, i | 0 <= i < |b|
      ensures ParseInt(part, 0, 255) == Some(b[i]) <==> Spells(part, b[i], false)
    {
      ParsesExactlySpellings(part, b[i], 0, 255);
    }
    if EncodeIp(JString(s)) == Ok(b) {
      assert forall i :: 0 <= i < |split| ==> split[i] in split;
      assert OctetTexts(split, b);
    }
    if parts :| OctetTexts(parts, b) && s == JoinDots(parts) {
      SplittingUndoesJoining(parts);
    }
  }

  /** Addresses are printed as plain decimal octets. */
  lemma AddressesArePrintedPlainly(b: seq<Byte>)
    requires |b| == 4
    ensures PrintIp(b) == JoinDots([PrintNat(b[0]), PrintNat(b[1]), PrintNat(b[2]), PrintNat(b[3])])
  {
    hide PrintNat;
    var p := [PrintNat(b[0]), PrintNat(b[1]), PrintNat(b[2]), PrintNat(b[3])];
    var p3 := [PrintNat(b[3])];
    var p2 := [PrintNat(b[2])] + p3;
    var p1 := [PrintNat(b[1])] + p2;
    assert p == [PrintNat(b[0])] + p1;
    assert p[1..] == p1 && p1[1..] == p2 && p2[1..] == p3;
    assert JoinDots(p3) == PrintNat(b[3]);
    assert JoinDots(p2) == PrintNat(b[2]) + "." + JoinDots(p3);
    assert JoinDots(p1) == PrintNat(b[1]) + "." + JoinDots(p2);
    assert JoinDots(p) == PrintNat(b[0]) + "." + JoinDots(p1);
  }

  /** The plain integer names of the registry: bytes and sign. */
  const INTEGER_NAMES: map<string, (nat, bool)> :=
    map["byte" := (1, false), "word" := (2, false), "dword" := (4, false),
        "integer" := (2, true), "dint" := (4, true), "lint" := (8, true)]

  const OTHER_NAMES: set<string> :=
    {"boolean", "char", "ip", "string", "intAsBigDecimal", "longAsInt",
     "real", "datetime", "bigdecimal", "wstring", "longAsDateTime"}

  /** What each registered name makes of eight bytes; there are no other names. */
  lemma RegistryReads(foreign: Foreign, name: string, b: seq<Byte>)
    requires |b| == 8
    ensures Lookup(name).Some? <==> name in INTEGER_NAMES || name in OTHER_NAMES
    ensures Lookup(name).Some? ==>
              DecodeValue(foreign, Lookup(name).value, b) ==
              if name in INTEGER_NAMES then
                var (k, signed) := INTEGER_NAMES[name];
                Ok(JInt(if signed then ReadSigned(b[..k]) else ReadUnsigned(b[..k])))
              else match name
                case "boolean" => Ok(JBool(b[0] != 0))
                case "char" => Ok(JString([b[0] as char]))
                case "ip" => Ok(JString(PrintIp(b[..4])))
                case "string" => DecodeString(b)
                case "intAsBigDecimal" => Ok(JString(PrintInt(ReadSigned(b[..2]))))
                case "longAsInt" => Ok(JInt(WrapSigned(2, ReadSigned(b))))
                case "real" => foreign.decode(RealCodec, b)
                case "datetime" => foreign.decode(DateTimeCodec, b)
                case "bigdecimal" => foreign.decode(BigDecimalCodec, b)
                case "wstring" => foreign.decode(WStringCodec, b)
                case _ => foreign.decode(LongAsDateTimeCodec, b)
    ensures name in {"real", "datetime", "bigdecimal", "wstring", "longAsDateTime"} ==>
              forall v :: EncodeValue(foreign, Lookup(name).value, v) == foreign.encode(Lookup(name).value, v)
  {
    hide PrintInt, ReadSigned, ReadUnsigned, WrapSigned, DecodeString;
    assert b[..8] == b;
  }
}
