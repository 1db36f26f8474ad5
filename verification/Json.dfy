/** The values a JSON text denotes, and the number conversions the library borrows from libc. */
module Json {
  import opened Bits

  /** A double, by its bit pattern. */
  type Double = d: nat | d < 0x1_0000_0000_0000_0000

  datatype Value =
    | Null
    | False
    | True
    | Number(n: Double)
    | String(s: seq<byte>)
    | Array(es: seq<Value>)
    | Object(ms: seq<Member>)

  datatype Member = Member(k: seq<byte>, v: Value)

  datatype Strtod = Finite(n: Double) | Huge

  /** `strtod` on the text from the number onwards, `sprintf("%.17g")`, and `==` on doubles. */
  datatype Libc = Libc(strtod: seq<byte> -> Strtod, fmt: Double -> seq<byte>, same: (Double, Double) -> bool)

  datatype Status =
    | Ok
    | ExpectValue
    | InvalidValue
    | RootNotSingular
    | NumberTooBig
    | MissQuotationMark
    | InvalidStringEscape
    | InvalidStringChar
    | InvalidUnicodeHex
    | InvalidUnicodeSurrogate
    | MissCommaOrSquareBracket
    | MissKey
    | MissColon
    | MissCommaOrCurlyBracket

  // Characters with a meaning in the grammar.
  const QUOTE: byte := 0x22
  const BACKSLASH: byte := 0x5C
  const SLASH: byte := 0x2F
  const PLUS: byte := 0x2B
  const COMMA: byte := 0x2C
  const MINUS: byte := 0x2D
  const DOT: byte := 0x2E
  const ZERO: byte := 0x30
  const COLON: byte := 0x3A
  const LBRACKET: byte := 0x5B
  const RBRACKET: byte := 0x5D
  const LBRACE: byte := 0x7B
  const RBRACE: byte := 0x7D

  const NULL_TEXT: seq<byte> := [0x6E, 0x75, 0x6C, 0x6C]
  const TRUE_TEXT: seq<byte> := [0x74, 0x72, 0x75, 0x65]
  const FALSE_TEXT: seq<byte> := [0x66, 0x61, 0x6C, 0x73, 0x65]

  predicate IsWs(b: byte) { b == 0x20 || b == 0x09 || b == 0x0A || b == 0x0D }

  predicate IsDigit(b: byte) { 0x30 <= b <= 0x39 }

  predicate IsDigit1To9(b: byte) { 0x31 <= b <= 0x39 }

  predicate IsHex(b: byte) { IsDigit(b) || 0x41 <= b <= 0x46 || 0x61 <= b <= 0x66 }

  function HexValue(b: byte): (d: nat)
    requires IsHex(b)
    ensures d < 16
  {
    if IsDigit(b) then b - 0x30 else if b <= 0x46 then b - 0x37 else b - 0x57
  }

  /** The byte a simple escape stands for. */
  function Unescaped(b: byte): (r: int)
    ensures r == -1 || 0 <= r < 256
  {
    if b == QUOTE || b == BACKSLASH || b == SLASH then b
    else if b == 0x62 then 0x08
    else if b == 0x66 then 0x0C
    else if b == 0x6E then 0x0A
    else if b == 0x72 then 0x0D
    else if b == 0x74 then 0x09
    else -1
  }
}
