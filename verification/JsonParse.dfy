/**
 The parser as functions on the text that is left, the terminating NUL excluded:
 `Peek` reads the NUL at the end. Each function follows one parse routine.
 */
module JsonParse {
  import opened Bits
  import Utf8
  import opened Json

  datatype Parsed<+T> = Good(value: T, rest: seq<byte>) | Bad(status: Status)

  function Peek(s: seq<byte>): byte { if s == [] then 0 else s[0] }

  function SkipWs(s: seq<byte>): (r: seq<byte>)
    ensures |r| <= |s|
  {
    if IsWs(Peek(s)) then SkipWs(s[1..]) else s
  }

  function SkipDigits(s: seq<byte>): (r: seq<byte>)
    ensures |r| <= |s|
  {
    if IsDigit(Peek(s)) then SkipDigits(s[1..]) else s
  }

  function ParseLiteral(s: seq<byte>, text: seq<byte>, v: Value): Parsed<Value>
  {
    if text <= s then Good(v, s[|text|..]) else Bad(InvalidValue)
  }

  // ---------------------------------------------------------------- numbers

  datatype Scan = Stop(rest: seq<byte>) | Reject

  function ScanInt(s: seq<byte>): (r: Scan)
    ensures r.Stop? ==> |r.rest| < |s|
  {
    if Peek(s) == ZERO then Stop(s[1..])
    else if IsDigit1To9(Peek(s)) then Stop(SkipDigits(s[1..]))
    else Reject
  }

  /** One or more digits. */
  function ScanDigits(s: seq<byte>): (r: Scan)
    ensures r.Stop? ==> |r.rest| < |s|
  {
    if IsDigit(Peek(s)) then Stop(SkipDigits(s[1..])) else Reject
  }

  function ScanFrac(s: seq<byte>): (r: Scan)
    ensures r.Stop? ==> |r.rest| <= |s|
  {
    if Peek(s) == DOT then ScanDigits(s[1..]) else Stop(s)
  }

  predicate IsE(b: byte) { b == 0x65 || b == 0x45 }

  predicate IsSign(b: byte) { b == PLUS || b == MINUS }

  function ScanExp(s: seq<byte>): (r: Scan)
    ensures r.Stop? ==> |r.rest| <= |s|
  {
    if IsE(Peek(s)) then ScanDigits(if IsSign(Peek(s[1..])) then s[2..] else s[1..]) else Stop(s)
  }

  function ScanNumber(s: seq<byte>): (r: Scan)
    ensures r.Stop? ==> |r.rest| < |s|
  {
    match ScanInt(if Peek(s) == MINUS then s[1..] else s)
    case Reject => Reject
    case Stop(s1) =>
      match ScanFrac(s1)
      case Reject => Reject
      case Stop(s2) => ScanExp(s2)
  }

  function ParseNumber(libc: Libc, s: seq<byte>): (r: Parsed<Value>)
    ensures r.Good? ==> |r.rest| < |s|
  {
    match ScanNumber(s)
    case Reject => Bad(InvalidValue)
    case Stop(rest) =>
      match libc.strtod(s)
      case Huge => Bad(NumberTooBig)
      case Finite(n) => Good(Number(n), rest)
  }

  // ---------------------------------------------------------------- strings

  /** The value of the first `n` characters, if they are all hexadecimal. */
  function Hex(s: seq<byte>, n: nat): (r: Parsed<nat>)
    ensures r.Good? ==> |r.rest| == |s| - n
    ensures r.Good? ==> r.value < Pow16(n)
  {
    if n == 0 then Good(0, s)
    else match Hex(s, n - 1)
      case Bad(e) => Bad(e)
      case Good(u, rest) =>
        if IsHex(Peek(rest)) then Good(16 * u + HexValue(Peek(rest)), rest[1..]) else Bad(InvalidUnicodeHex)
  }

  function Pow16(n: nat): (p: nat)
    ensures p > 0
  {
    if n == 0 then 1 else 16 * Pow16(n - 1)
  }

  function Hex4(s: seq<byte>): (r: Parsed<nat>)
    ensures r.Good? ==> |r.rest| == |s| - 4 && r.value <= 0xFFFF
  {
    assert Pow16(4) == 0x10000;
    Hex(s, 4)
  }

  /** What follows `\u`: four hexadecimal digits, and the second half of a pair after a high surrogate. */
  function ParseUnicode(s: seq<byte>): (r: Parsed<nat>)
    ensures r.Good? ==> |r.rest| < |s| && r.value <= 0x10FFFF
  {
    match Hex4(s)
    case Bad(e) => Bad(e)
    case Good(u, r1) =>
      if !Utf8.IsHigh(u) then Good(u, r1)
      else if Peek(r1) != BACKSLASH then Bad(InvalidUnicodeSurrogate)
      else if Peek(r1[1..]) != 0x75 then Bad(InvalidUnicodeSurrogate)
      else match Hex4(r1[2..])
        case Bad(e) => Bad(e)
        case Good(u2, r2) =>
          if !Utf8.IsLow(u2) then Bad(InvalidUnicodeSurrogate)
          else
            Utf8.CombineIsInjective(u, u2);
            Good(Utf8.Combine(u, u2), r2)
  }

  /** What follows a backslash. */
  function ParseEscape(s: seq<byte>): (r: Parsed<seq<byte>>)
    ensures r.Good? ==> |r.rest| < |s|
  {
    if Peek(s) == 0x75 then
      match ParseUnicode(s[1..])
      case Bad(e) => Bad(e)
      case Good(u, rest) => Good(Utf8.Encode(u), rest)
    else if s == [] || Unescaped(s[0]) == -1 then Bad(InvalidStringEscape)
    else Good([Unescaped(s[0])], s[1..])
  }

  /** The characters of a string after its opening quote, appended to those already read. */
  function ParseChars(s: seq<byte>, read: seq<byte>): (r: Parsed<seq<byte>>)
    ensures r.Good? ==> |r.rest| < |s|
    decreases |s|
  {
    if Peek(s) == 0 then Bad(MissQuotationMark)
    else if s[0] == QUOTE then Good(read, s[1..])
    else if s[0] == BACKSLASH then
      match ParseEscape(s[1..])
      case Bad(e) => Bad(e)
      case Good(bs, rest) => ParseChars(rest, read + bs)
    else if s[0] < 0x20 then Bad(InvalidStringChar)
    else ParseChars(s[1..], read + [s[0]])
  }

  function ParseString(s: seq<byte>): (r: Parsed<seq<byte>>)
    requires Peek(s) == QUOTE
    ensures r.Good? ==> |r.rest| < |s|
  {
    ParseChars(s[1..], [])
  }

  // ---------------------------------------------------------------- values

  function ParseValue(libc: Libc, s: seq<byte>): (r: Parsed<Value>)
    ensures r.Good? ==> |r.rest| < |s|
    decreases |s|, 0
  {
    if Peek(s) == 0x74 then ParseLiteral(s, TRUE_TEXT, True)
    else if Peek(s) == 0x66 then ParseLiteral(s, FALSE_TEXT, False)
    else if Peek(s) == 0x6E then ParseLiteral(s, NULL_TEXT, Null)
    else if Peek(s) == QUOTE then
      match ParseString(s)
      case Bad(e) => Bad(e)
      case Good(bs, rest) => Good(String(bs), rest)
    else if Peek(s) == LBRACKET then
      var s1 := SkipWs(s[1..]);
      if Peek(s1) == RBRACKET then Good(Array([]), s1[1..]) else ParseElements(libc, s1, [])
    else if Peek(s) == LBRACE then
      var s1 := SkipWs(s[1..]);
      if Peek(s1) == RBRACE then Good(Object([]), s1[1..]) else ParseMembers(libc, s1, [])
    else if Peek(s) == 0 then Bad(ExpectValue)
    else ParseNumber(libc, s)
  }

  /** The elements of an array from one value on, appended to those already read. */
  function ParseElements(libc: Libc, s: seq<byte>, read: seq<Value>): (r: Parsed<Value>)
    ensures r.Good? ==> |r.rest| < |s|
    decreases |s|, 1
  {
    match ParseValue(libc, s)
    case Bad(e) => Bad(e)
    case Good(v, s1) =>
      var s2 := SkipWs(s1);
      if Peek(s2) == COMMA then ParseElements(libc, SkipWs(s2[1..]), read + [v])
      else if Peek(s2) == RBRACKET then Good(Array(read + [v]), s2[1..])
      else Bad(MissCommaOrSquareBracket)
  }

  /** A key, the colon behind it and the white space up to the value. */
  function ParseKey(s: seq<byte>): (r: Parsed<seq<byte>>)
    ensures r.Good? ==> |r.rest| < |s|
  {
    if Peek(s) != QUOTE then Bad(MissKey)
    else match ParseString(s)
      case Bad(e) => Bad(e)
      case Good(k, s1) =>
        var s2 := SkipWs(s1);
        if Peek(s2) != COLON then Bad(MissColon) else Good(k, SkipWs(s2[1..]))
  }

  function ParseMember(libc: Libc, s: seq<byte>): (r: Parsed<Member>)
    ensures r.Good? ==> |r.rest| < |s|
    decreases |s|, 1
  {
    match ParseKey(s)
    case Bad(e) => Bad(e)
    case Good(k, s1) =>
      match ParseValue(libc, s1)
      case Bad(e) => Bad(e)
      case Good(v, s2) => Good(Member(k, v), s2)
  }

  function ParseMembers(libc: Libc, s: seq<byte>, read: seq<Member>): (r: Parsed<Value>)
    ensures r.Good? ==> |r.rest| < |s|
    decreases |s|, 2
  {
    match ParseMember(libc, s)
    case Bad(e) => Bad(e)
    case Good(m, s1) =>
      var s2 := SkipWs(s1);
      if Peek(s2) == COMMA then ParseMembers(libc, SkipWs(s2[1..]), read + [m])
      else if Peek(s2) == RBRACE then Good(Object(read + [m]), s2[1..])
      else Bad(MissCommaOrCurlyBracket)
  }

  /** A whole text. */
  function Parse(libc: Libc, s: seq<byte>): Parsed<Value>
  {
    match ParseValue(libc, SkipWs(s))
    case Bad(e) => Bad(e)
    case Good(v, s1) => if Peek(SkipWs(s1)) != 0 then Bad(RootNotSingular) else Good(v, [])
  }
}
