/**
 What is wrong with a text that is not JSON: derivations that break off, and what stands at the
 place. Everything before it follows the grammar. The parser is not mentioned here.
 */
module JsonFailures {
  import opened Bits
  import Utf8
  import opened Json
  import opened JsonGrammar

  predicate Starts(s: seq<byte>, b: byte) { s != [] && s[0] == b }

  predicate StartsWs(s: seq<byte>) { s != [] && IsWs(s[0]) }

  // ---------------------------------------------------------------- strings

  /** What stands in a string instead of a character or the closing quote. */
  datatype CharFault =
    | EndOfText
    | ControlByte(rest: seq<byte>)                            // a byte below 0x20
    | NoEscape(rest: seq<byte>)                               // behind a backslash: no escape letter
    | NoHex(rest: seq<byte>)                                  // behind \u: not four hexadecimal digits
    | LoneHigh(h: seq<byte>, rest: seq<byte>)                 // behind a high surrogate: no \u
    | NoLowHex(h: seq<byte>, rest: seq<byte>)                 // behind that \u: not four hexadecimal digits
    | NotLow(h: seq<byte>, l: seq<byte>, rest: seq<byte>)     // four digits, but no low surrogate

  predicate FourHexAhead(s: seq<byte>) { |s| >= 4 && FourHex(s[..4]) }

  predicate IsHighUnit(h: seq<byte>) { FourHex(h) && Utf8.IsHigh(HexNumber(h)) }

  predicate WfFault(f: CharFault) {
    match f
    case EndOfText => true
    case ControlByte(rest) => rest != [] && 0 < rest[0] < 0x20
    case NoEscape(rest) => rest == [] || (rest[0] !in ESCAPES && rest[0] != 0x75)
    case NoHex(rest) => !FourHexAhead(rest)
    case LoneHigh(h, rest) => IsHighUnit(h) && !([BACKSLASH, 0x75] <= rest)
    case NoLowHex(h, rest) => IsHighUnit(h) && !FourHexAhead(rest)
    case NotLow(h, l, _) => IsHighUnit(h) && FourHex(l) && !Utf8.IsLow(HexNumber(l))
  }

  function FaultText(f: CharFault): seq<byte> {
    match f
    case EndOfText => []
    case ControlByte(rest) => rest
    case NoEscape(rest) => [BACKSLASH] + rest
    case NoHex(rest) => [BACKSLASH, 0x75] + rest
    case LoneHigh(h, rest) => [BACKSLASH, 0x75] + (h + rest)
    case NoLowHex(h, rest) => [BACKSLASH, 0x75] + (h + ([BACKSLASH, 0x75] + rest))
    case NotLow(h, l, rest) => [BACKSLASH, 0x75] + (h + ([BACKSLASH, 0x75] + (l + rest)))
  }

  function FaultStatus(f: CharFault): Status {
    match f
    case EndOfText => MissQuotationMark
    case ControlByte(_) => InvalidStringChar
    case NoEscape(_) => InvalidStringEscape
    case NoHex(_) => InvalidUnicodeHex
    case LoneHigh(_, _) => InvalidUnicodeSurrogate
    case NoLowHex(_, _) => InvalidUnicodeHex
    case NotLow(_, _, _) => InvalidUnicodeSurrogate
  }

  /** Characters without a closing quote. */
  function OpenText(cs: seq<CharT>): seq<byte> {
    if cs == [] then [] else CharText(cs[0]) + OpenText(cs[1..])
  }

  // ---------------------------------------------------------------- values

  /** A value is expected, and there is none, or it breaks off. */
  datatype Break =
    | NoValue                                                 // nothing at all
    | NotValue(rest: seq<byte>)                               // no literal and no number
    | TooBig(num: NumLex, rest: seq<byte>)
    | BadStr(cs: seq<CharT>, f: CharFault)
    | BadArr(w: seq<byte>, items: BadItems)
    | BadObj(w: seq<byte>, entries: BadEntries)

  /** From one item of an array on. */
  datatype BadItems =
    | BadItem(b: Break)
    | NoComma(t: Tree, w: seq<byte>, rest: seq<byte>)         // behind an item: neither comma nor bracket
    | ThenItems(t: Tree, w: seq<byte>, w': seq<byte>, tail: BadItems)

  /** From one entry of an object on. */
  datatype BadEntries =
    | NoKey(rest: seq<byte>)                                  // no quote
    | BadKey(cs: seq<CharT>, f: CharFault)
    | NoColon(k: seq<CharT>, w: seq<byte>, rest: seq<byte>)   // behind a key: no colon
    | BadEntry(k: seq<CharT>, w: seq<byte>, w': seq<byte>, b: Break)
    | NoEntryComma(e: Entry, w: seq<byte>, rest: seq<byte>)   // behind an entry: neither comma nor brace
    | ThenEntries(e: Entry, w: seq<byte>, w': seq<byte>, tail: BadEntries)

  /** A value with anything behind it: a number is taken as long as it goes, and must be in range. */
  predicate Takes(libc: Libc, t: Tree, rest: seq<byte>) {
    if t.NumT? then WfNum(t.num) && Stops(t.num, rest) && libc.strtod(NumText(t.num) + rest).Finite? else Wf(libc, t)
  }

  ghost predicate StartsNumber(s: seq<byte>) {
    exists num, rest :: IsNumberAhead(s, num, rest)
  }

  predicate IsNumberAhead(s: seq<byte>, num: NumLex, rest: seq<byte>) {
    WfNum(num) && Stops(num, rest) && s == NumText(num) + rest
  }

  ghost predicate WfBreak(libc: Libc, b: Break) {
    match b
    case NoValue => true
    case NotValue(rest) =>
      && rest != [] && !IsWs(rest[0]) && rest[0] !in {0, QUOTE, LBRACKET, LBRACE}
      && !(NULL_TEXT <= rest) && !(TRUE_TEXT <= rest) && !(FALSE_TEXT <= rest) && !StartsNumber(rest)
    case TooBig(num, rest) => WfNum(num) && Stops(num, rest) && libc.strtod(NumText(num) + rest).Huge?
    case BadStr(cs, f) => WfChars(cs) && WfFault(f)
    case BadArr(w, items) => AllWs(w) && WfBadItems(libc, items) && !Starts(BadItemsText(items), RBRACKET)
    case BadObj(w, entries) => AllWs(w) && WfBadEntries(libc, entries) && !Starts(BadEntriesText(entries), RBRACE)
  }

  ghost predicate WfBadItems(libc: Libc, items: BadItems) {
    match items
    case BadItem(b) => WfBreak(libc, b)
    case NoComma(t, w, rest) => AllWs(w) && Takes(libc, t, w + rest) && NoneAhead(rest, COMMA, RBRACKET)
    case ThenItems(t, w, w', tail) => Wf(libc, t) && AllWs(w) && AllWs(w') && WfBadItems(libc, tail)
  }

  ghost predicate WfBadEntries(libc: Libc, entries: BadEntries) {
    match entries
    case NoKey(rest) => NoneAhead(rest, QUOTE, QUOTE)
    case BadKey(cs, f) => WfChars(cs) && WfFault(f)
    case NoColon(k, w, rest) => WfChars(k) && AllWs(w) && NoneAhead(rest, COLON, COLON)
    case BadEntry(k, w, w', b) => WfChars(k) && AllWs(w) && AllWs(w') && WfBreak(libc, b)
    case NoEntryComma(e, w, rest) =>
      && WfChars(e.k) && AllWs(e.w) && AllWs(e.w') && AllWs(w)
      && Takes(libc, e.t, w + rest) && NoneAhead(rest, COMMA, RBRACE)
    case ThenEntries(e, w, w', tail) => WfEntry(libc, e) && AllWs(w) && AllWs(w') && WfBadEntries(libc, tail)
  }

  /** Neither white space nor one of two characters. */
  predicate NoneAhead(rest: seq<byte>, a: byte, b: byte) {
    !StartsWs(rest) && !Starts(rest, a) && !Starts(rest, b)
  }

  function BreakText(b: Break): seq<byte> {
    match b
    case NoValue => []
    case NotValue(rest) => rest
    case TooBig(num, rest) => NumText(num) + rest
    case BadStr(cs, f) => [QUOTE] + (OpenText(cs) + FaultText(f))
    case BadArr(w, items) => [LBRACKET] + (w + BadItemsText(items))
    case BadObj(w, entries) => [LBRACE] + (w + BadEntriesText(entries))
  }

  function BadItemsText(items: BadItems): seq<byte> {
    match items
    case BadItem(b) => BreakText(b)
    case NoComma(t, w, rest) => Text(t) + (w + rest)
    case ThenItems(t, w, w', tail) => Text(t) + (w + ([COMMA] + (w' + BadItemsText(tail))))
  }

  function BadEntriesText(entries: BadEntries): seq<byte> {
    match entries
    case NoKey(rest) => rest
    case BadKey(cs, f) => [QUOTE] + (OpenText(cs) + FaultText(f))
    case NoColon(k, w, rest) => ([QUOTE] + CharsText(k)) + (w + rest)
    case BadEntry(k, w, w', b) => ([QUOTE] + CharsText(k)) + (w + ([COLON] + (w' + BreakText(b))))
    case NoEntryComma(e, w, rest) => EntryText(e) + (w + rest)
    case ThenEntries(e, w, w', tail) => EntryText(e) + (w + ([COMMA] + (w' + BadEntriesText(tail))))
  }

  function BreakStatus(b: Break): Status {
    match b
    case NoValue => ExpectValue
    case NotValue(_) => InvalidValue
    case TooBig(_, _) => NumberTooBig
    case BadStr(_, f) => FaultStatus(f)
    case BadArr(_, items) => BadItemsStatus(items)
    case BadObj(_, entries) => BadEntriesStatus(entries)
  }

  function BadItemsStatus(items: BadItems): Status {
    match items
    case BadItem(b) => BreakStatus(b)
    case NoComma(_, _, _) => MissCommaOrSquareBracket
    case ThenItems(_, _, _, tail) => BadItemsStatus(tail)
  }

  function BadEntriesStatus(entries: BadEntries): Status {
    match entries
    case NoKey(_) => MissKey
    case BadKey(_, f) => FaultStatus(f)
    case NoColon(_, _, _) => MissColon
    case BadEntry(_, _, _, b) => BreakStatus(b)
    case NoEntryComma(_, _, _) => MissCommaOrCurlyBracket
    case ThenEntries(_, _, _, tail) => BadEntriesStatus(tail)
  }

  // ---------------------------------------------------------------- texts

  /** White space, and then a value that breaks off. */
  ghost predicate BreaksOff(libc: Libc, s: seq<byte>, w: seq<byte>, b: Break) {
    AllWs(w) && WfBreak(libc, b) && s == w + BreakText(b)
  }

  /** White space, a value, and behind it more than white space. */
  predicate HasMore(libc: Libc, s: seq<byte>, w: seq<byte>, t: Tree, rest: seq<byte>) {
    AllWs(w) && Takes(libc, t, rest) && !AllWs(rest) && s == w + (Text(t) + rest)
  }

  ghost predicate FailsWith(libc: Libc, s: seq<byte>, e: Status) {
    || (exists w, b :: BreaksOff(libc, s, w, b) && BreakStatus(b) == e)
    || (e == RootNotSingular && exists w, t, rest :: HasMore(libc, s, w, t, rest))
  }
}
