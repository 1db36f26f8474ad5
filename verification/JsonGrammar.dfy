/**
 The JSON grammar of RFC 8259 (sections 2 to 7) as derivation trees: the text a derivation
 spells, when it is well formed, and the value it denotes. The parser is not mentioned here.
 */
module JsonGrammar {
  import opened Bits
  import Utf8
  import opened Json

  // ---------------------------------------------------------------- section 6: numbers

  /** number = [ minus ] int [ frac ] [ exp ]; an empty `frac` or `exp` means its absence. */
  datatype NumLex = NumLex(minus: seq<byte>, integer: seq<byte>, frac: seq<byte>, exp: seq<byte>)

  predicate AllDigits(ds: seq<byte>) { forall i :: 0 <= i < |ds| ==> IsDigit(ds[i]) }

  predicate Digits(ds: seq<byte>) { |ds| > 0 && AllDigits(ds) }

  predicate IsInt(ds: seq<byte>) { ds == [ZERO] || (Digits(ds) && ds[0] != ZERO) }

  predicate IsFrac(f: seq<byte>) { f == [] || (f[0] == DOT && Digits(f[1..])) }

  predicate IsExp(x: seq<byte>) {
    || x == []
    || (x[0] in {0x65, 0x45} && (Digits(x[1..]) || (|x| > 1 && x[1] in {PLUS, MINUS} && Digits(x[2..]))))
  }

  predicate WfNum(num: NumLex) {
    num.minus in {[], [MINUS]} && IsInt(num.integer) && IsFrac(num.frac) && IsExp(num.exp)
  }

  function NumText(num: NumLex): seq<byte> {
    num.minus + (num.integer + (num.frac + num.exp))
  }

  /** The number ends here: with what follows it, it is not the beginning of a longer one. */
  predicate Stops(num: NumLex, rest: seq<byte>) {
    rest == [] || (
      && (num.integer != [ZERO] || num.frac != [] || num.exp != [] ==> !IsDigit(rest[0]))
      && (num.exp == [] ==> rest[0] !in {0x65, 0x45})
      && (num.exp == [] && num.frac == [] ==> rest[0] != DOT))
  }

  ghost predicate IsNumber(text: seq<byte>) {
    exists num :: WfNum(num) && NumText(num) == text
  }

  // ---------------------------------------------------------------- section 7: strings

  /** Bytes from 0x80 up stand for themselves: a text is not checked to be UTF-8. */
  datatype CharT =
    | Plain(b: byte)
    | Escape(b: byte)
    | Unit(h: seq<byte>)
    | Pair(h: seq<byte>, l: seq<byte>)

  const ESCAPES: map<byte, byte> :=
    map[QUOTE := QUOTE, BACKSLASH := BACKSLASH, SLASH := SLASH,
        0x62 := 0x08, 0x66 := 0x0C, 0x6E := 0x0A, 0x72 := 0x0D, 0x74 := 0x09]

  predicate FourHex(h: seq<byte>) { |h| == 4 && IsHex(h[0]) && IsHex(h[1]) && IsHex(h[2]) && IsHex(h[3]) }

  function HexNumber(h: seq<byte>): (u: nat)
    requires FourHex(h)
    ensures u <= 0xFFFF
  {
    0x1000 * HexValue(h[0]) + 0x100 * HexValue(h[1]) + 0x10 * HexValue(h[2]) + HexValue(h[3])
  }

  predicate WfChar(c: CharT) {
    match c
    case Plain(b) => b >= 0x20 && b != QUOTE && b != BACKSLASH
    case Escape(b) => b in ESCAPES
    case Unit(h) => FourHex(h) && !Utf8.IsHigh(HexNumber(h))
    case Pair(h, l) => FourHex(h) && FourHex(l) && Utf8.IsHigh(HexNumber(h)) && Utf8.IsLow(HexNumber(l))
  }

  function CharText(c: CharT): seq<byte> {
    match c
    case Plain(b) => [b]
    case Escape(b) => [BACKSLASH, b]
    case Unit(h) => [BACKSLASH, 0x75] + h
    case Pair(h, l) => [BACKSLASH, 0x75] + (h + ([BACKSLASH, 0x75] + l))
  }

  function CharValue(c: CharT): seq<byte>
    requires WfChar(c)
  {
    match c
    case Plain(b) => [b]
    case Escape(b) => [ESCAPES[b]]
    case Unit(h) => Utf8.Distributed(HexNumber(h))
    case Pair(h, l) => Utf8.Distributed(0x10000 + 0x400 * (HexNumber(h) - 0xD800) + (HexNumber(l) - 0xDC00))
  }

  predicate WfChars(cs: seq<CharT>) { cs == [] || (WfChar(cs[0]) && WfChars(cs[1..])) }

  /** The characters and the closing quote. */
  function CharsText(cs: seq<CharT>): seq<byte> {
    if cs == [] then [QUOTE] else CharText(cs[0]) + CharsText(cs[1..])
  }

  function CharsValue(cs: seq<CharT>): seq<byte>
    requires WfChars(cs)
  {
    if cs == [] then [] else CharValue(cs[0]) + CharsValue(cs[1..])
  }

  // ---------------------------------------------------------------- sections 2 to 5: values

  datatype Tree =
    | NullT
    | FalseT
    | TrueT
    | NumT(num: NumLex)
    | StrT(cs: seq<CharT>)
    | EmptyArrT(w: seq<byte>)
    | ArrT(w: seq<byte>, items: Items)
    | EmptyObjT(w: seq<byte>)
    | ObjT(w: seq<byte>, entries: Entries)

  /** Values and separators up to and including the closing bracket, with the white space around them. */
  datatype Items = LastItem(t: Tree, w: seq<byte>) | MoreItems(t: Tree, w: seq<byte>, w': seq<byte>, tail: Items)

  datatype Entry = Entry(k: seq<CharT>, w: seq<byte>, w': seq<byte>, t: Tree)

  datatype Entries = LastEntry(e: Entry, w: seq<byte>) | MoreEntries(e: Entry, w: seq<byte>, w': seq<byte>, tail: Entries)

  predicate AllWs(w: seq<byte>) { forall i :: 0 <= i < |w| ==> IsWs(w[i]) }

  /** Well formed, and no number out of the range of `strtod`. */
  predicate Wf(libc: Libc, t: Tree) {
    match t
    case NumT(num) => WfNum(num) && libc.strtod(NumText(num)).Finite?
    case StrT(cs) => WfChars(cs)
    case EmptyArrT(w) => AllWs(w)
    case ArrT(w, items) => AllWs(w) && WfItems(libc, items)
    case EmptyObjT(w) => AllWs(w)
    case ObjT(w, entries) => AllWs(w) && WfEntries(libc, entries)
    case _ => true
  }

  predicate WfItems(libc: Libc, items: Items) {
    match items
    case LastItem(t, w) => Wf(libc, t) && AllWs(w)
    case MoreItems(t, w, w', tail) => Wf(libc, t) && AllWs(w) && AllWs(w') && WfItems(libc, tail)
  }

  predicate WfEntry(libc: Libc, e: Entry) {
    WfChars(e.k) && AllWs(e.w) && AllWs(e.w') && Wf(libc, e.t)
  }

  predicate WfEntries(libc: Libc, entries: Entries) {
    match entries
    case LastEntry(e, w) => WfEntry(libc, e) && AllWs(w)
    case MoreEntries(e, w, w', tail) => WfEntry(libc, e) && AllWs(w) && AllWs(w') && WfEntries(libc, tail)
  }

  function Text(t: Tree): seq<byte> {
    match t
    case NullT => NULL_TEXT
    case FalseT => FALSE_TEXT
    case TrueT => TRUE_TEXT
    case NumT(num) => NumText(num)
    case StrT(cs) => [QUOTE] + CharsText(cs)
    case EmptyArrT(w) => [LBRACKET] + (w + [RBRACKET])
    case ArrT(w, items) => [LBRACKET] + (w + ItemsText(items))
    case EmptyObjT(w) => [LBRACE] + (w + [RBRACE])
    case ObjT(w, entries) => [LBRACE] + (w + EntriesText(entries))
  }

  function ItemsText(items: Items): seq<byte> {
    match items
    case LastItem(t, w) => Text(t) + (w + [RBRACKET])
    case MoreItems(t, w, w', tail) => Text(t) + (w + ([COMMA] + (w' + ItemsText(tail))))
  }

  function EntryText(e: Entry): seq<byte> {
    ([QUOTE] + CharsText(e.k)) + (e.w + ([COLON] + (e.w' + Text(e.t))))
  }

  function EntriesText(entries: Entries): seq<byte> {
    match entries
    case LastEntry(e, w) => EntryText(e) + (w + [RBRACE])
    case MoreEntries(e, w, w', tail) => EntryText(e) + (w + ([COMMA] + (w' + EntriesText(tail))))
  }

  function Denote(libc: Libc, t: Tree): Value
    requires Wf(libc, t)
  {
    match t
    case NullT => Null
    case FalseT => False
    case TrueT => True
    case NumT(num) => Number(libc.strtod(NumText(num)).n)
    case StrT(cs) => String(CharsValue(cs))
    case EmptyArrT(_) => Array([])
    case ArrT(_, items) => Array(DenoteItems(libc, items))
    case EmptyObjT(_) => Object([])
    case ObjT(_, entries) => Object(DenoteEntries(libc, entries))
  }

  function DenoteItems(libc: Libc, items: Items): seq<Value>
    requires WfItems(libc, items)
  {
    match items
    case LastItem(t, _) => [Denote(libc, t)]
    case MoreItems(t, _, _, tail) => [Denote(libc, t)] + DenoteItems(libc, tail)
  }

  function DenoteEntry(libc: Libc, e: Entry): Member
    requires WfEntry(libc, e)
  {
    Member(CharsValue(e.k), Denote(libc, e.t))
  }

  function DenoteEntries(libc: Libc, entries: Entries): seq<Member>
    requires WfEntries(libc, entries)
  {
    match entries
    case LastEntry(e, _) => [DenoteEntry(libc, e)]
    case MoreEntries(e, _, _, tail) => [DenoteEntry(libc, e)] + DenoteEntries(libc, tail)
  }

  /** JSON-text = ws value ws: the text `s` derives `v`. */
  ghost predicate Derives(libc: Libc, s: seq<byte>, v: Value) {
    exists w, t, w' :: IsDerivation(libc, s, w, t, w') && Denote(libc, t) == v
  }

  predicate IsDerivation(libc: Libc, s: seq<byte>, w: seq<byte>, t: Tree, w': seq<byte>) {
    AllWs(w) && AllWs(w') && Wf(libc, t) && s == w + (Text(t) + w')
  }

  /** What may stand behind a value: the end, white space, a comma or a closing bracket. */
  predicate Delimited(rest: seq<byte>) {
    rest == [] || IsWs(rest[0]) || rest[0] in {0, COMMA, RBRACKET, RBRACE}
  }

  /** `strtod` reads a delimited number and nothing behind it. */
  ghost predicate StrtodIsLocal(libc: Libc) {
    forall num, rest :: WfNum(num) && Delimited(rest) ==> libc.strtod(NumText(num) + rest) == libc.strtod(NumText(num))
  }
}
