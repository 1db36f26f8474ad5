/** The printer as functions, and the round trip: every printed text is a derivation of the value printed. */
module JsonPrint {
  import opened Bits
  import Utf8
  import opened Json
  import opened JsonParse
  import opened JsonGrammar
  import JsonComplete
  import JsonSound

  const HEX_DIGITS: seq<byte> :=
    [0x30, 0x31, 0x32, 0x33, 0x34, 0x35, 0x36, 0x37, 0x38, 0x39, 0x41, 0x42, 0x43, 0x44, 0x45, 0x46]

  function EscapeByte(b: byte): (text: seq<byte>)
    ensures 1 <= |text| <= 6
  {
    if b == QUOTE then [BACKSLASH, QUOTE]
    else if b == BACKSLASH then [BACKSLASH, BACKSLASH]
    else if b == 0x08 then [BACKSLASH, 0x62]
    else if b == 0x0C then [BACKSLASH, 0x66]
    else if b == 0x0A then [BACKSLASH, 0x6E]
    else if b == 0x0D then [BACKSLASH, 0x72]
    else if b == 0x09 then [BACKSLASH, 0x74]
    else if b < 0x20 then [BACKSLASH, 0x75, ZERO, ZERO, HEX_DIGITS[b / 16], HEX_DIGITS[b % 16]]
    else [b]
  }

  function EscapeFrom(s: seq<byte>, i: nat): (text: seq<byte>)
    requires i <= |s|
    ensures |text| <= 6 * (|s| - i)
    decreases |s| - i
  {
    if i == |s| then [] else EscapeByte(s[i]) + EscapeFrom(s, i + 1)
  }

  function PrintString(s: seq<byte>): (text: seq<byte>)
    ensures |text| <= 6 * |s| + 2
  {
    [QUOTE] + EscapeFrom(s, 0) + [QUOTE]
  }

  function Print(libc: Libc, v: Value): seq<byte>
    decreases v
  {
    match v
    case Null => NULL_TEXT
    case False => FALSE_TEXT
    case True => TRUE_TEXT
    case Number(n) => libc.fmt(n)
    case String(s) => PrintString(s)
    case Array(es) => [LBRACKET] + PrintElements(libc, es, 0) + [RBRACKET]
    case Object(ms) => [LBRACE] + PrintMembers(libc, ms, 0) + [RBRACE]
  }

  /** The elements from the `i`-th on, each but the first of all preceded by a comma. */
  function PrintElements(libc: Libc, es: seq<Value>, i: nat): seq<byte>
    requires i <= |es|
    decreases es, |es| - i
  {
    if i == |es| then []
    else (if i > 0 then [COMMA] else []) + Print(libc, es[i]) + PrintElements(libc, es, i + 1)
  }

  function PrintMembers(libc: Libc, ms: seq<Member>, i: nat): seq<byte>
    requires i <= |ms|
    decreases ms, |ms| - i
  {
    if i == |ms| then []
    else (if i > 0 then [COMMA] else []) + PrintMember(libc, ms[i]) + PrintMembers(libc, ms, i + 1)
  }

  function PrintMember(libc: Libc, m: Member): seq<byte>
    decreases m
  {
    PrintString(m.k) + [COLON] + Print(libc, m.v)
  }

  /** `sprintf` stays inside its 32 bytes, writes a JSON number, and `strtod` reads it back. */
  ghost predicate NumberOk(libc: Libc, n: Double) {
    IsNumber(libc.fmt(n)) && |libc.fmt(n)| <= 31 && libc.strtod(libc.fmt(n)) == Finite(n)
  }

  ghost predicate NumbersOk(libc: Libc, v: Value)
    decreases v
  {
    match v
    case Number(n) => NumberOk(libc, n)
    case Array(es) => forall i :: 0 <= i < |es| ==> NumbersOk(libc, es[i])
    case Object(ms) => forall i :: 0 <= i < |ms| ==> NumbersOk(libc, ms[i].v)
    case _ => true
  }

  // ---------------------------------------------------------------- the derivation of a printed text

  function CharOf(b: byte): CharT {
    if b == QUOTE || b == BACKSLASH then Escape(b)
    else if b == 0x08 then Escape(0x62)
    else if b == 0x0C then Escape(0x66)
    else if b == 0x0A then Escape(0x6E)
    else if b == 0x0D then Escape(0x72)
    else if b == 0x09 then Escape(0x74)
    else if b < 0x20 then Unit([ZERO, ZERO, HEX_DIGITS[b / 16], HEX_DIGITS[b % 16]])
    else Plain(b)
  }

  lemma HexDigitsAreHex(d: nat)
    requires d < 16
    ensures IsHex(HEX_DIGITS[d]) && HexValue(HEX_DIGITS[d]) == d
  {}

  lemma EscapeIsChar(b: byte)
    ensures WfChar(CharOf(b)) && CharText(CharOf(b)) == EscapeByte(b) && CharValue(CharOf(b)) == [b]
  {
    HexDigitsAreHex(b / 16);
    HexDigitsAreHex(b % 16);
  }

  function CharsOf(s: seq<byte>, i: nat): seq<CharT>
    requires i <= |s|
    decreases |s| - i
  {
    if i == |s| then [] else [CharOf(s[i])] + CharsOf(s, i + 1)
  }

  lemma {:induction false} EscapeIsChars(s: seq<byte>, i: nat)
    requires i <= |s|
    ensures WfChars(CharsOf(s, i)) && CharsText(CharsOf(s, i)) == EscapeFrom(s, i) + [QUOTE]
    ensures CharsValue(CharsOf(s, i)) == s[i..]
    decreases |s| - i
  {
    hide CharOf, WfChar, CharText, CharValue, EscapeByte;
    if i < |s| {
      hide WfChars, CharsText, CharsValue;
      EscapeIsChar(s[i]);
      EscapeIsChars(s, i + 1);
      JsonSound.Prepended(CharOf(s[i]), CharsOf(s, i + 1), []);
      assert s[i..] == [s[i]] + s[i + 1..];
    }
  }

  ghost function NumberLex(libc: Libc, n: Double): (num: NumLex)
    requires NumberOk(libc, n)
    ensures WfNum(num) && NumText(num) == libc.fmt(n)
  {
    var num :| WfNum(num) && NumText(num) == libc.fmt(n);
    num
  }

  /** The derivation without white space. */
  ghost function TreeOf(libc: Libc, v: Value): Tree
    requires NumbersOk(libc, v)
    decreases v
  {
    match v
    case Null => NullT
    case False => FalseT
    case True => TrueT
    case Number(n) => NumT(NumberLex(libc, n))
    case String(s) => StrT(CharsOf(s, 0))
    case Array(es) => if es == [] then EmptyArrT([]) else ArrT([], ItemsOf(libc, es, 0))
    case Object(ms) => if ms == [] then EmptyObjT([]) else ObjT([], EntriesOf(libc, ms, 0))
  }

  ghost function ItemsOf(libc: Libc, es: seq<Value>, i: nat): Items
    requires i < |es| && forall j :: 0 <= j < |es| ==> NumbersOk(libc, es[j])
    decreases es, |es| - i
  {
    if i + 1 == |es| then LastItem(TreeOf(libc, es[i]), [])
    else MoreItems(TreeOf(libc, es[i]), [], [], ItemsOf(libc, es, i + 1))
  }

  ghost function EntriesOf(libc: Libc, ms: seq<Member>, i: nat): Entries
    requires i < |ms| && forall j :: 0 <= j < |ms| ==> NumbersOk(libc, ms[j].v)
    decreases ms, |ms| - i
  {
    var e := Entry(CharsOf(ms[i].k, 0), [], [], TreeOf(libc, ms[i].v));
    if i + 1 == |ms| then LastEntry(e, []) else MoreEntries(e, [], [], EntriesOf(libc, ms, i + 1))
  }

  lemma {:induction false} PrintIsText(libc: Libc, v: Value)
    requires NumbersOk(libc, v)
    ensures Wf(libc, TreeOf(libc, v)) && Text(TreeOf(libc, v)) == Print(libc, v)
    ensures Denote(libc, TreeOf(libc, v)) == v
    decreases v
  {
    hide CharsOf, EscapeFrom, WfChars, CharsText, CharsValue, NumText, WfNum;
    match v
    case String(s) => EscapeIsChars(s, 0);
    case Array(es) =>
      if es != [] {
        PrintIsItems(libc, es, 0);
        assert es[0..] == es;
      }
    case Object(ms) =>
      if ms != [] {
        PrintIsEntries(libc, ms, 0);
        assert ms[0..] == ms;
      }
    case _ =>
  }

  lemma {:induction false} PrintIsItems(libc: Libc, es: seq<Value>, i: nat)
    requires i < |es| && forall j :: 0 <= j < |es| ==> NumbersOk(libc, es[j])
    ensures WfItems(libc, ItemsOf(libc, es, i)) && DenoteItems(libc, ItemsOf(libc, es, i)) == es[i..]
    ensures (if i > 0 then [COMMA] else []) + ItemsText(ItemsOf(libc, es, i)) == PrintElements(libc, es, i) + [RBRACKET]
    decreases es, |es| - i
  {
    hide Print, TreeOf, Text, Denote, Wf;
    PrintIsText(libc, es[i]);
    var text := Print(libc, es[i]);
    if i + 1 < |es| {
      PrintIsItems(libc, es, i + 1);
      var tail := ItemsText(ItemsOf(libc, es, i + 1));
      assert ItemsText(ItemsOf(libc, es, i)) == text + ([COMMA] + tail);
    } else {
      assert ItemsText(ItemsOf(libc, es, i)) == text + [RBRACKET];
    }
  }

  lemma {:induction false} PrintIsEntries(libc: Libc, ms: seq<Member>, i: nat)
    requires i < |ms| && forall j :: 0 <= j < |ms| ==> NumbersOk(libc, ms[j].v)
    ensures WfEntries(libc, EntriesOf(libc, ms, i)) && DenoteEntries(libc, EntriesOf(libc, ms, i)) == ms[i..]
    ensures (if i > 0 then [COMMA] else []) + EntriesText(EntriesOf(libc, ms, i)) == PrintMembers(libc, ms, i) + [RBRACE]
    decreases ms, |ms| - i
  {
    hide PrintMember, TreeOf, EntryText, DenoteEntry, WfEntry, CharsOf;
    var e := Entry(CharsOf(ms[i].k, 0), [], [], TreeOf(libc, ms[i].v));
    PrintIsEntry(libc, ms[i]);
    var text := PrintMember(libc, ms[i]);
    if i + 1 < |ms| {
      PrintIsEntries(libc, ms, i + 1);
      var tail := EntriesText(EntriesOf(libc, ms, i + 1));
      assert EntriesText(EntriesOf(libc, ms, i)) == text + ([COMMA] + tail);
    } else {
      assert EntriesText(EntriesOf(libc, ms, i)) == text + [RBRACE];
    }
  }

  lemma {:induction false} PrintIsEntry(libc: Libc, m: Member)
    requires NumbersOk(libc, m.v)
    ensures var e := Entry(CharsOf(m.k, 0), [], [], TreeOf(libc, m.v));
      WfEntry(libc, e) && EntryText(e) == PrintMember(libc, m) && DenoteEntry(libc, e) == m
    decreases m
  {
    hide Print, TreeOf, Text, Denote, Wf, CharsOf, EscapeFrom, WfChars, CharsText, CharsValue;
    EscapeIsChars(m.k, 0);
    PrintIsText(libc, m.v);
  }
}
