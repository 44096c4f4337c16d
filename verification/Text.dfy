// The texts codecs read and write: decimal numbers, dotted parts and UTF-8.
module Text {
  import opened Prelude

  // ----- decimal numbers, as str::parse accepts and format! prints them -----

  function Digit(c: char): Option<nat> {
    if '0' <= c <= '9' then Some(c as int - '0' as int) else None
  }

  function ParseDigits(s: string): Option<nat> {
    if s == "" then None
    else if |s| == 1 then Digit(s[0])
    else
      match (ParseDigits(Front(s)), Digit(Last(s)))
      case (Some(high), Some(d)) => Some(10 * high + d)
      case _ => None
  }

  /** One optional sign, then digits; out-of-range numbers are errors. A minus sign is only
      a sign for types that have negative values. */
  function ParseInt(s: string, low: int, high: int): Option<int> {
    var n: Option<int> :=
      if s != "" && s[0] == '+' then ParseDigits(s[1..])
      else if s != "" && s[0] == '-' && low < 0 then
        (match ParseDigits(s[1..]) case Some(m) => Some(0 - m) case None => None)
      else ParseDigits(s);
    match n
    case Some(v) => if low <= v <= high then Some(v) else None
    case None => None
  }

  function PrintNat(n: nat): (s: string)
    ensures s != "" && forall c :: c in s ==> '0' <= c <= '9'
  {
    var d := ('0' as int + n % 10) as char;
    if n < 10 then [d] else PrintNat(n / 10) + [d]
  }

  function PrintInt(n: int): string {
    if n < 0 then "-" + PrintNat(-n) else PrintNat(n)
  }

  /** `zeros` leading zeros. */
  function LeadingZeros(zeros: nat): (s: string)
    ensures |s| == zeros && forall c :: c in s ==> c == '0'
  {
    seq(zeros, _ => '0')
  }

  lemma {:induction false} ZerosParseAsZero(zeros: nat)
    ensures zeros > 0 ==> ParseDigits(LeadingZeros(zeros)) == Some(0)
  {
    if zeros > 1 {
      ZerosParseAsZero(zeros - 1);
      assert Front(LeadingZeros(zeros)) == LeadingZeros(zeros - 1);
    }
  }

  lemma {:induction false} ZerosDoNotCount(zeros: nat, n: nat)
    ensures ParseDigits(LeadingZeros(zeros) + PrintNat(n)) == Some(n)
  {
    var s := LeadingZeros(zeros) + PrintNat(n);
    if n >= 10 {
      ZerosDoNotCount(zeros, n / 10);
      assert Front(s) == LeadingZeros(zeros) + PrintNat(n / 10);
    } else {
      ZerosParseAsZero(zeros);
      assert Front(s) == LeadingZeros(zeros);
    }
  }

  lemma PrintOneMoreDigit(high: nat, c: char)
    requires Digit(c).Some?
    ensures PrintNat(10 * high + Digit(c).value) == if high == 0 then [c] else PrintNat(high) + [c]
  {
  }

  lemma {:induction false} DigitsAreANumber(s: string) returns (zeros: nat)
    requires ParseDigits(s).Some?
    ensures s == LeadingZeros(zeros) + PrintNat(ParseDigits(s).value)
  {
    zeros := 0;
    if |s| == 1 {
      PrintOneMoreDigit(0, s[0]);
    } else {
      var high := ParseDigits(Front(s)).value;
      zeros := DigitsAreANumber(Front(s));
      PrintOneMoreDigit(high, Last(s));
      assert PrintNat(0) == "0";
      hide PrintNat, Digit;
      assert s == Front(s) + [Last(s)];
      if high == 0 {
        assert LeadingZeros(zeros + 1) == LeadingZeros(zeros) + "0";
        zeros := zeros + 1;
      }
    }
  }

  /** The text is an optional sign, any leading zeros and the decimal digits of the number. A
      minus sign is only a sign for types that have negative values. */
  predicate SpelledWith(s: string, v: int, signed: bool, sign: string, zeros: nat) {
    && s == sign + LeadingZeros(zeros) + PrintNat(if v < 0 then -v else v)
    && (if v < 0 then sign == "-" else sign in {"", "+"} || (sign == "-" && v == 0))
    && (sign == "-" ==> signed)
  }

  ghost predicate Spells(s: string, v: int, signed: bool) {
    exists sign, zeros :: SpelledWith(s, v, signed, sign, zeros)
  }

  /** The parser accepts exactly the spellings of the numbers in its range. */
  lemma ParsesExactlySpellings(s: string, v: int, low: int, high: int)
    ensures ParseInt(s, low, high) == Some(v) <==> low <= v <= high && Spells(s, v, low < 0)
  {
    if ParseInt(s, low, high) == Some(v) {
      ParsedIsSpelled(s, v, low, high);
    }
    if low <= v <= high && Spells(s, v, low < 0) {
      var sign, zeros :| SpelledWith(s, v, low < 0, sign, zeros);
      SpelledIsParsed(s, v, low, high, sign, zeros);
    }
  }

  lemma ParsedIsSpelled(s: string, v: int, low: int, high: int)
    requires ParseInt(s, low, high) == Some(v)
    ensures Spells(s, v, low < 0)
  {
    if s[0] == '+' {
      var zeros := DigitsAreANumber(s[1..]);
      assert SpelledWith(s, v, low < 0, "+", zeros);
    } else if s[0] == '-' && low < 0 {
      var zeros := DigitsAreANumber(s[1..]);
      assert SpelledWith(s, v, low < 0, "-", zeros);
    } else {
      var zeros := DigitsAreANumber(s);
      assert SpelledWith(s, v, low < 0, "", zeros);
    }
  }

  lemma SpelledIsParsed(s: string, v: int, low: int, high: int, sign: string, zeros: nat)
    requires low <= v <= high && SpelledWith(s, v, low < 0, sign, zeros)
    ensures ParseInt(s, low, high) == Some(v)
  {
    hide PrintNat, ParseDigits, LeadingZeros;
    var n := if v < 0 then -v else v;
    var digits := LeadingZeros(zeros) + PrintNat(n);
    ZerosDoNotCount(zeros, n);
    if sign == "" {
      assert s == digits && digits[0] in digits;
      assert forall c :: c in digits ==> '0' <= c <= '9';
    } else {
      assert s == sign + digits && s[0] == sign[0] && s[1..] == digits;
    }
  }

  lemma ParsePrint(n: int, low: int, high: int)
    requires low <= n <= high
    ensures ParseInt(PrintInt(n), low, high) == Some(n)
  {
    hide PrintNat, ParseInt;
    assert LeadingZeros(0) == "";
    var sign := if n < 0 then "-" else "";
    assert SpelledWith(PrintInt(n), n, low < 0, sign, 0);
    SpelledIsParsed(PrintInt(n), n, low, high, sign, 0);
  }

  // ----- parts between dots -----

  function SplitDots(s: string): (parts: seq<string>)
    ensures parts != []
  {
    if s == "" then [""]
    else
      var rest := SplitDots(s[1..]);
      if s[0] == '.' then [""] + rest else [[s[0]] + rest[0]] + rest[1..]
  }

  lemma {:induction false} SplitAtDot(part: string, rest: string)
    requires '.' !in part
    ensures SplitDots(part + "." + rest) == [part] + SplitDots(rest)
    ensures SplitDots(part) == [part]
  {
    if part == "" {
      assert ("." + rest)[1..] == rest;
      assert part + "." + rest == "." + rest;
    } else {
      SplitAtDot(part[1..], rest);
      assert (part + "." + rest)[1..] == part[1..] + "." + rest;
      assert [part[0]] + part[1..] == part;
    }
  }

  function JoinDots(parts: seq<string>): string
    requires parts != []
  {
    if |parts| == 1 then parts[0] else parts[0] + "." + JoinDots(parts[1..])
  }

  lemma {:induction false} JoiningUndoesSplitting(s: string)
    ensures JoinDots(SplitDots(s)) == s
    ensures forall part :: part in SplitDots(s) ==> '.' !in part
  {
    if s != "" {
      var rest := SplitDots(s[1..]);
      JoiningUndoesSplitting(s[1..]);
      assert rest[0] in rest;
      assert s == [s[0]] + s[1..];
      if s[0] == '.' {
        assert ([""] + rest)[1..] == rest;
      } else {
        var parts := [[s[0]] + rest[0]] + rest[1..];
        assert parts[1..] == rest[1..];
        assert forall part :: part in rest[1..] ==> part in rest;
      }
    }
  }

  lemma {:induction false} SplittingUndoesJoining(parts: seq<string>)
    requires parts != [] && forall part :: part in parts ==> '.' !in part
    ensures SplitDots(JoinDots(parts)) == parts
  {
    hide SplitDots;
    assert parts[0] in parts && parts == [parts[0]] + parts[1..];
    if |parts| == 1 {
      SplitAtDot(parts[0], "");
    } else {
      assert forall part :: part in parts[1..] ==> part in parts;
      SplittingUndoesJoining(parts[1..]);
      SplitAtDot(parts[0], JoinDots(parts[1..]));
    }
  }

  // ----- UTF-8 (RFC 3629) -----

  function EncodeChar(c: char): (b: seq<Byte>)
    ensures 1 <= |b| <= 4
  {
    var n := c as int;
    if n < 0x80 then [n]
    else if n < 0x800 then [0xC0 + n / 64, 0x80 + n % 64]
    else if n < 0x10000 then [0xE0 + n / 4096, 0x80 + n / 64 % 64, 0x80 + n % 64]
    else [0xF0 + n / 262144, 0x80 + n / 4096 % 64, 0x80 + n / 64 % 64, 0x80 + n % 64]
  }

  function EncodeUtf8(s: string): seq<Byte> {
    if s == "" then [] else EncodeChar(s[0]) + EncodeUtf8(s[1..])
  }

  function Scalar(n: int): Option<char> {
    if 0 <= n < 0xD800 || 0xE000 <= n < 0x11_0000 then Some(n as char) else None
  }

  predicate Continuation(b: Byte) {
    0x80 <= b < 0xC0
  }

  /** The number spelt by the payload bits of one to four bytes. */
  function CodePoint(b: seq<Byte>): int
    requires 1 <= |b| <= 4
  {
    if |b| == 1 then b[0]
    else if |b| == 2 then Payload(b[0], 0xC0, b[1])
    else if |b| == 3 then Payload(Payload(b[0], 0xE0, b[1]), 0, b[2])
    else Payload(Payload(Payload(b[0], 0xF0, b[1]), 0, b[2]), 0, b[3])
  }

  function Payload(high: int, marker: int, low: int): int {
    (high - marker) * 64 + low - 0x80
  }

  /** The length a first byte announces; 0 if no character begins with it. */
  function SizeByLead(lead: Byte): (size: nat)
    ensures size <= 4
  {
    if lead < 0x80 then 1 else if lead < 0xC0 then 0
    else if lead < 0xE0 then 2 else if lead < 0xF0 then 3 else if lead < 0xF8 then 4 else 0
  }

  /** The first character and its length; None for a truncated, overlong or invalid form. */
  function DecodeChar(b: seq<Byte>): (r: Option<(char, nat)>)
    ensures r.Some? ==> 1 <= r.value.1 <= |b|
  {
    var size := if b == [] then 0 else SizeByLead(b[0]);
    if size == 0 || |b| < size || exists i :: 1 <= i < size && !Continuation(b[i]) then None
    else
      var n := CodePoint(b[..size]);
      match Scalar(n)
      case Some(c) => if |EncodeChar(c)| == size then Some((c, size)) else None
      case None => None
  }

  function DecodeUtf8(b: seq<Byte>): Option<string> {
    if b == [] then Some("")
    else
      match DecodeChar(b)
      case None => None
      case Some((c, size)) =>
        match DecodeUtf8(b[size..])
        case Some(rest) => Some([c] + rest)
        case None => None
  }

  lemma CodePointOfChar(c: char)
    ensures CodePoint(EncodeChar(c)) == c as int
  {
    var n := c as int;
    var a, b := n / 64, n / 4096;
    assert n == 64 * a + n % 64;
    assert a == 64 * b + a % 64 by { assert b == a / 64; }
    assert b == 64 * (n / 262144) + b % 64 by { assert n / 262144 == b / 64; }
  }

  lemma ShapeOfChar(c: char)
    ensures var e := EncodeChar(c);
            SizeByLead(e[0]) == |e| && forall i :: 1 <= i < |e| ==> Continuation(e[i])
  {
  }

  lemma DecodeEncodeChar(c: char, rest: seq<Byte>)
    ensures DecodeChar(EncodeChar(c) + rest) == Some((c, |EncodeChar(c)|))
  {
    hide EncodeChar, CodePoint, Continuation, SizeByLead;
    var e := EncodeChar(c);
    var b := e + rest;
    CodePointOfChar(c);
    ShapeOfChar(c);
    assert b[..|e|] == e;
    assert forall i :: 0 <= i < |e| ==> b[i] == e[i];
    assert Scalar(c as int) == Some(c);
  }

  lemma {:induction false} DecodeEncodeUtf8(s: string)
    ensures DecodeUtf8(EncodeUtf8(s)) == Some(s)
  {
    if s != "" {
      hide EncodeChar, DecodeChar;
      DecodeEncodeChar(s[0], EncodeUtf8(s[1..]));
      DecodeEncodeUtf8(s[1..]);
      assert EncodeUtf8(s)[|EncodeChar(s[0])|..] == EncodeUtf8(s[1..]);
      assert [s[0]] + s[1..] == s;
    }
  }

  lemma CodePointInverse(b: seq<Byte>)
    requires 1 <= |b| <= 4 && SizeByLead(b[0]) == |b| && forall i :: 1 <= i < |b| ==> Continuation(b[i])
    requires Scalar(CodePoint(b)).Some? && |EncodeChar(Scalar(CodePoint(b)).value)| == |b|
    ensures EncodeChar(Scalar(CodePoint(b)).value) == b
  {
    var c := Scalar(CodePoint(b)).value;
    var e := EncodeChar(c);
    CodePointOfChar(c);
    ShapeOfChar(c);
    assert CodePoint(b) == CodePoint(e);
    PayloadsAreUnique(b, e);
  }

  lemma PayloadsAreUnique(b: seq<Byte>, e: seq<Byte>)
    requires 1 <= |b| <= 4 && |b| == |e| && CodePoint(b) == CodePoint(e)
    requires SizeByLead(b[0]) == |b| && SizeByLead(e[0]) == |e|
    requires forall i :: 1 <= i < |b| ==> Continuation(b[i]) && Continuation(e[i])
    ensures b == e
  {
  }

  lemma DecodedCharIsItsEncoding(b: seq<Byte>)
    requires DecodeChar(b).Some?
    ensures EncodeChar(DecodeChar(b).value.0) == b[..DecodeChar(b).value.1]
  {
    var size := SizeByLead(b[0]);
    hide EncodeChar, CodePoint, Continuation, Scalar;
    assert forall i :: 1 <= i < size ==> b[..size][i] == b[i];
    CodePointInverse(b[..size]);
  }

  lemma DecodedFrom(b: seq<Byte>)
    requires b != [] && DecodeUtf8(b).Some?
    ensures DecodeChar(b).Some?
    ensures var (c, size) := DecodeChar(b).value;
            DecodeUtf8(b[size..]).Some? && DecodeUtf8(b).value == [c] + DecodeUtf8(b[size..]).value
  {
    hide DecodeChar;
  }

  lemma EncodedFrom(b: seq<Byte>, c: char, size: nat, rest: string)
    requires size <= |b| && EncodeChar(c) == b[..size] && EncodeUtf8(rest) == b[size..]
    ensures EncodeUtf8([c] + rest) == b
  {
    hide EncodeChar;
    assert ([c] + rest)[1..] == rest;
  }

  /** Decoding accepts nothing but UTF-8: what it accepts is the encoding of its result. */
  lemma {:induction false} EncodeDecodeUtf8(b: seq<Byte>)
    ensures DecodeUtf8(b).Some? ==> EncodeUtf8(DecodeUtf8(b).value) == b
  {
    if b != [] && DecodeUtf8(b).Some? {
      DecodedFrom(b);
      DecodedCharIsItsEncoding(b);
      hide EncodeChar, DecodeChar, DecodeUtf8, EncodeUtf8;
      var (c, size) := DecodeChar(b).value;
      EncodeDecodeUtf8(b[size..]);
      EncodedFrom(b, c, size, DecodeUtf8(b[size..]).value);
    }
  }
}
