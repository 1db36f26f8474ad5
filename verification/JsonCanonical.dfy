/**
 Which text a value is printed as. Of all derivations that denote it and spell its numbers as
 `sprintf` does, the shortest: no white space, and every byte by the shortest way to write it.
 Where a hexadecimal digit is a letter, it is a capital one.
 */
module JsonCanonical {
  import opened Bits
  import Utf8
  import opened Json
  import opened JsonGrammar
  import opened JsonPrint

  predicate NoSmall(h: seq<byte>) { forall i :: 0 <= i < |h| ==> h[i] !in {0x61, 0x62, 0x63, 0x64, 0x65, 0x66} }

  predicate CapitalChar(c: CharT) {
    match c
    case Unit(h) => NoSmall(h)
    case Pair(h, l) => NoSmall(h) && NoSmall(l)
    case _ => true
  }

  predicate CapitalChars(cs: seq<CharT>) { cs == [] || (CapitalChar(cs[0]) && CapitalChars(cs[1..])) }

  predicate Capital(t: Tree) {
    match t
    case StrT(cs) => CapitalChars(cs)
    case ArrT(_, items) => CapitalItems(items)
    case ObjT(_, entries) => CapitalEntries(entries)
    case _ => true
  }

  predicate CapitalItems(items: Items) { Capital(items.t) && (items.MoreItems? ==> CapitalItems(items.tail)) }

  predicate CapitalEntry(e: Entry) { CapitalChars(e.k) && Capital(e.t) }

  predicate CapitalEntries(entries: Entries) {
    CapitalEntry(entries.e) && (entries.MoreEntries? ==> CapitalEntries(entries.tail))
  }

  /** Every number is spelled as it is formatted. */
  predicate Formatted(libc: Libc, t: Tree)
    requires Wf(libc, t)
  {
    match t
    case NumT(num) => NumText(num) == libc.fmt(Denote(libc, t).n)
    case ArrT(_, items) => FormattedItems(libc, items)
    case ObjT(_, entries) => FormattedEntries(libc, entries)
    case _ => true
  }

  predicate FormattedItems(libc: Libc, items: Items)
    requires WfItems(libc, items)
  {
    Formatted(libc, items.t) && (items.MoreItems? ==> FormattedItems(libc, items.tail))
  }

  predicate FormattedEntry(libc: Libc, e: Entry)
    requires WfEntry(libc, e)
  {
    Formatted(libc, e.t)
  }

  predicate FormattedEntries(libc: Libc, entries: Entries)
    requires WfEntries(libc, entries)
  {
    FormattedEntry(libc, entries.e) && (entries.MoreEntries? ==> FormattedEntries(libc, entries.tail))
  }

  predicate Spells(libc: Libc, t: Tree, v: Value) { Wf(libc, t) && Denote(libc, t) == v && Formatted(libc, t) }

  /** No spelling of the value is shorter than this one. */
  ghost predicate Canonical(libc: Libc, v: Value, s: seq<byte>) {
    && (exists t :: Spells(libc, t, v) && Capital(t) && Text(t) == s)
    && (forall t :: Spells(libc, t, v) ==> |s| <= |Text(t)|)
  }

  // ---------------------------------------------------------------- shortest texts

  /** Not longer, and if as long, then the same (provided the letters are capital). */
  predicate Fits(p: seq<byte>, text: seq<byte>, capital: bool) {
    |p| <= |text| && (|p| == |text| && capital ==> p == text)
  }

  lemma JoinFits(p: seq<byte>, text: seq<byte>, c: bool, p': seq<byte>, text': seq<byte>, c': bool)
    requires Fits(p, text, c) && Fits(p', text', c')
    ensures Fits(p + p', text + text', c && c')
  {}

  /** White space in front only makes it longer. */
  lemma WsFits(w: seq<byte>, p: seq<byte>, text: seq<byte>, c: bool)
    requires Fits(p, text, c)
    ensures Fits(p, w + text, c)
  {
    if w == [] { assert w + text == text; }
  }

  lemma {:induction false} EscapeShifted(a: seq<byte>, b: seq<byte>, j: nat)
    requires j <= |b|
    ensures EscapeFrom(a + b, |a| + j) == EscapeFrom(b, j)
    decreases |b| - j
  {
    hide EscapeByte;
    if j < |b| { EscapeShifted(a, b, j + 1); }
  }

  lemma {:induction false} EscapeConcat(a: seq<byte>, b: seq<byte>, i: nat)
    requires i <= |a|
    ensures EscapeFrom(a + b, i) == EscapeFrom(a, i) + EscapeFrom(b, 0)
    decreases |a| - i
  {
    hide EscapeByte;
    if i < |a| {
      EscapeConcat(a, b, i + 1);
      assert (a + b)[i] == a[i];
    } else {
      EscapeShifted(a, b, 0);
    }
  }

  lemma EscapeOne(b: byte)
    ensures EscapeFrom([b], 0) == EscapeByte(b)
  {
    assert EscapeFrom([b], 1) == [];
  }

  /** A byte from 0x80 up stands for itself. */
  lemma {:induction false} HighBytes(s: seq<byte>, i: nat)
    requires i <= |s| && forall j :: 0 <= j < |s| ==> s[j] >= 0x80
    ensures EscapeFrom(s, i) == s[i..]
    decreases |s| - i
  {
    if i < |s| { HighBytes(s, i + 1); }
  }

  lemma CapitalDigits(h: seq<byte>)
    requires FourHex(h) && NoSmall(h) && HexNumber(h) < 0x20
    ensures h == [ZERO, ZERO, HEX_DIGITS[HexNumber(h) / 16], HEX_DIGITS[HexNumber(h) % 16]]
  {
    assert HexValue(h[0]) == 0 && HexValue(h[1]) == 0;
    assert HexNumber(h) / 16 == HexValue(h[2]) && HexNumber(h) % 16 == HexValue(h[3]);
    CapitalDigit(h[0]);
    CapitalDigit(h[1]);
    CapitalDigit(h[2]);
    CapitalDigit(h[3]);
  }

  lemma CapitalDigit(b: byte)
    requires IsHex(b) && NoSmall([b])
    ensures b == HEX_DIGITS[HexValue(b)]
  {
    assert [b][0] == b;
  }

  lemma UnitFits(h: seq<byte>)
    requires WfChar(Unit(h))
    ensures Fits(EscapeFrom(CharValue(Unit(h)), 0), CharText(Unit(h)), NoSmall(h))
  {
    hide HexNumber;
    var u := HexNumber(h);
    if u < 0x80 {
      EscapeOne(u);
      if u < 0x20 && NoSmall(h) { CapitalDigits(h); }
    } else {
      HighBytes(Utf8.Distributed(u), 0);
    }
  }

  lemma CharFits(c: CharT)
    requires WfChar(c)
    ensures Fits(EscapeFrom(CharValue(c), 0), CharText(c), CapitalChar(c))
  {
    hide HexNumber, Utf8.Distributed;
    match c
    case Plain(b) => EscapeOne(b);
    case Escape(b) => EscapeOne(ESCAPES[b]);
    case Unit(h) => UnitFits(h);
    case Pair(h, l) => PairFits(h, l);
  }

  lemma PairFits(h: seq<byte>, l: seq<byte>)
    requires WfChar(Pair(h, l))
    ensures |EscapeFrom(CharValue(Pair(h, l)), 0)| < |CharText(Pair(h, l))|
  {
    hide HexNumber;
    HighBytes(CharValue(Pair(h, l)), 0);
  }

  lemma {:induction false} CharsFit(cs: seq<CharT>)
    requires WfChars(cs)
    ensures Fits(EscapeFrom(CharsValue(cs), 0) + [QUOTE], CharsText(cs), CapitalChars(cs))
    decreases |cs|
  {
    hide WfChar, CharText, CharValue, EscapeByte, CapitalChar;
    if cs != [] {
      var a, b := CharValue(cs[0]), CharsValue(cs[1..]);
      CharFits(cs[0]);
      CharsFit(cs[1..]);
      EscapeConcat(a, b, 0);
      JoinFits(EscapeFrom(a, 0), CharText(cs[0]), CapitalChar(cs[0]),
               EscapeFrom(b, 0) + [QUOTE], CharsText(cs[1..]), CapitalChars(cs[1..]));
      assert EscapeFrom(a + b, 0) + [QUOTE] == EscapeFrom(a, 0) + (EscapeFrom(b, 0) + [QUOTE]);
    }
  }

  lemma StringFits(cs: seq<CharT>)
    requires WfChars(cs)
    ensures Fits(PrintString(CharsValue(cs)), [QUOTE] + CharsText(cs), CapitalChars(cs))
  {
    hide EscapeFrom, CharsText, CharsValue, CapitalChars;
    CharsFit(cs);
    var p := EscapeFrom(CharsValue(cs), 0);
    assert PrintString(CharsValue(cs)) == [QUOTE] + (p + [QUOTE]);
  }

  lemma {:induction false} ValueFits(libc: Libc, t: Tree)
    requires Wf(libc, t) && Formatted(libc, t)
    ensures Fits(Print(libc, Denote(libc, t)), Text(t), Capital(t))
    decreases t
  {
    hide PrintString, CharsText, CharsValue, CapitalChars, WfChars, NumText, WfNum, ItemsText, EntriesText,
      CapitalItems, CapitalEntries, PrintElements, PrintMembers, Fits, DenoteItems, DenoteEntries;
    match t
    case StrT(cs) => StringFits(cs);
    case EmptyArrT(w) => EmptyArrayFits(libc, w);
    case EmptyObjT(w) => EmptyObjectFits(libc, w);
    case ArrT(w, items) =>
      NotEmpty(libc, items);
      ItemsFit(libc, items, DenoteItems(libc, items), 0);
      ArrayFits(libc, w, items);
    case ObjT(w, entries) =>
      NoneEmpty(libc, entries);
      EntriesFit(libc, entries, DenoteEntries(libc, entries), 0);
      ObjectFits(libc, w, entries);
    case _ => SameFits(Text(t));
  }

  lemma SameFits(text: seq<byte>)
    ensures Fits(text, text, true)
  {}

  lemma ArrayFits(libc: Libc, w: seq<byte>, items: Items)
    requires WfItems(libc, items) && DenoteItems(libc, items) != []
    requires var es := DenoteItems(libc, items);
      Fits(Print(libc, es[0]) + (PrintElements(libc, es, 1) + [RBRACKET]), ItemsText(items), CapitalItems(items))
    ensures var es := DenoteItems(libc, items);
      Fits([LBRACKET] + PrintElements(libc, es, 0) + [RBRACKET], [LBRACKET] + (w + ItemsText(items)), CapitalItems(items))
  {
    hide WfItems, DenoteItems, PrintElements, Print, ItemsText, CapitalItems;
    var es := DenoteItems(libc, items);
    var p := PrintElements(libc, es, 0) + [RBRACKET];
    FirstElement(libc, es);
    WsFits(w, p, ItemsText(items), CapitalItems(items));
    assert [LBRACKET] + PrintElements(libc, es, 0) + [RBRACKET] == [LBRACKET] + p;
  }

  lemma ObjectFits(libc: Libc, w: seq<byte>, entries: Entries)
    requires WfEntries(libc, entries) && DenoteEntries(libc, entries) != []
    requires var ms := DenoteEntries(libc, entries);
      Fits(PrintMember(libc, ms[0]) + (PrintMembers(libc, ms, 1) + [RBRACE]), EntriesText(entries), CapitalEntries(entries))
    ensures var ms := DenoteEntries(libc, entries);
      Fits([LBRACE] + PrintMembers(libc, ms, 0) + [RBRACE], [LBRACE] + (w + EntriesText(entries)), CapitalEntries(entries))
  {
    hide WfEntries, DenoteEntries, PrintMembers, PrintMember, EntriesText, CapitalEntries;
    var ms := DenoteEntries(libc, entries);
    var p := PrintMembers(libc, ms, 0) + [RBRACE];
    FirstMember(libc, ms);
    WsFits(w, p, EntriesText(entries), CapitalEntries(entries));
    assert [LBRACE] + PrintMembers(libc, ms, 0) + [RBRACE] == [LBRACE] + p;
  }

  lemma EmptyArrayFits(libc: Libc, w: seq<byte>)
    ensures Fits(Print(libc, Array([])), Text(EmptyArrT(w)), true)
  {
    WsFits(w, [RBRACKET], [RBRACKET], true);
    assert Print(libc, Array([])) == [LBRACKET, RBRACKET];
  }

  lemma EmptyObjectFits(libc: Libc, w: seq<byte>)
    ensures Fits(Print(libc, Object([])), Text(EmptyObjT(w)), true)
  {
    WsFits(w, [RBRACE], [RBRACE], true);
    assert Print(libc, Object([])) == [LBRACE, RBRACE];
  }

  lemma EmptyFits(w: seq<byte>, open: byte, close: byte)
    ensures Fits([open] + [] + [close], [open] + (w + [close]), true)
  {
    if w == [] { assert [open] + [] + [close] == [open] + (w + [close]); }
  }

  lemma FirstElement(libc: Libc, es: seq<Value>)
    requires es != []
    ensures PrintElements(libc, es, 0) + [RBRACKET] == Print(libc, es[0]) + (PrintElements(libc, es, 1) + [RBRACKET])
  {
    hide Print;
  }

  lemma FirstMember(libc: Libc, ms: seq<Member>)
    requires ms != []
    ensures PrintMembers(libc, ms, 0) + [RBRACE] == PrintMember(libc, ms[0]) + (PrintMembers(libc, ms, 1) + [RBRACE])
  {
    hide PrintMember;
  }

  lemma {:induction false} ItemsFit(libc: Libc, items: Items, es: seq<Value>, i: nat)
    requires WfItems(libc, items) && FormattedItems(libc, items)
    requires i < |es| && DenoteItems(libc, items) == es[i..]
    ensures Fits(Print(libc, es[i]) + (PrintElements(libc, es, i + 1) + [RBRACKET]), ItemsText(items), CapitalItems(items))
    decreases items
  {
    hide Print, Text, Denote, Wf, Formatted, Capital, AllWs;
    ValueFits(libc, items.t);
    assert es[i] == es[i..][0] == Denote(libc, items.t);
    var close := PrintElements(libc, es, i + 1) + [RBRACKET];
    if items.LastItem? {
      assert close == [RBRACKET];
      WsFits(items.w, close, [RBRACKET], true);
      JoinFits(Print(libc, es[i]), Text(items.t), Capital(items.t), close, items.w + [RBRACKET], true);
    } else {
      var tail := items.tail;
      assert es[i + 1..] == es[i..][1..] == DenoteItems(libc, tail);
      NotEmpty(libc, tail);
      ItemsFit(libc, tail, es, i + 1);
      var p := Print(libc, es[i + 1]) + (PrintElements(libc, es, i + 2) + [RBRACKET]);
      assert close == [COMMA] + p;
      SeparatedFits(Print(libc, es[i]), Text(items.t), Capital(items.t), items.w, items.w', p, ItemsText(tail), CapitalItems(tail));
    }
  }

  lemma NotEmpty(libc: Libc, items: Items)
    requires WfItems(libc, items)
    ensures DenoteItems(libc, items) != []
  {}

  lemma SeparatedFits(p: seq<byte>, text: seq<byte>, c: bool, w: seq<byte>, w': seq<byte>, p': seq<byte>, text': seq<byte>, c': bool)
    requires Fits(p, text, c) && Fits(p', text', c')
    ensures Fits(p + ([COMMA] + p'), text + (w + ([COMMA] + (w' + text'))), c && c')
  {
    WsFits(w', p', text', c');
    JoinFits([COMMA], [COMMA], true, p', w' + text', c');
    WsFits(w, [COMMA] + p', [COMMA] + (w' + text'), c');
    JoinFits(p, text, c, [COMMA] + p', w + ([COMMA] + (w' + text')), c');
  }

  lemma {:induction false} EntryFits(libc: Libc, e: Entry)
    requires WfEntry(libc, e) && FormattedEntry(libc, e)
    ensures Fits(PrintMember(libc, DenoteEntry(libc, e)), EntryText(e), CapitalEntry(e))
    decreases e
  {
    hide Print, PrintString, CharsText, CharsValue, CapitalChars, WfChars, Text, Denote, Wf, Formatted, Capital, AllWs;
    ValueFits(libc, e.t);
    StringFits(e.k);
    var k, p := PrintString(CharsValue(e.k)), Print(libc, Denote(libc, e.t));
    WsFits(e.w', p, Text(e.t), Capital(e.t));
    JoinFits([COLON], [COLON], true, p, e.w' + Text(e.t), Capital(e.t));
    WsFits(e.w, [COLON] + p, [COLON] + (e.w' + Text(e.t)), Capital(e.t));
    JoinFits(k, [QUOTE] + CharsText(e.k), CapitalChars(e.k), [COLON] + p, e.w + ([COLON] + (e.w' + Text(e.t))), Capital(e.t));
    assert PrintMember(libc, DenoteEntry(libc, e)) == k + ([COLON] + p);
  }

  lemma {:induction false} EntriesFit(libc: Libc, entries: Entries, ms: seq<Member>, i: nat)
    requires WfEntries(libc, entries) && FormattedEntries(libc, entries)
    requires i < |ms| && DenoteEntries(libc, entries) == ms[i..]
    ensures Fits(PrintMember(libc, ms[i]) + (PrintMembers(libc, ms, i + 1) + [RBRACE]), EntriesText(entries), CapitalEntries(entries))
    decreases entries
  {
    hide PrintMember, EntryText, DenoteEntry, WfEntry, FormattedEntry, CapitalEntry, AllWs;
    EntryFits(libc, entries.e);
    assert ms[i] == ms[i..][0] == DenoteEntry(libc, entries.e);
    var close := PrintMembers(libc, ms, i + 1) + [RBRACE];
    var p0, text0 := PrintMember(libc, ms[i]), EntryText(entries.e);
    if entries.LastEntry? {
      assert close == [RBRACE];
      WsFits(entries.w, close, [RBRACE], true);
      JoinFits(p0, text0, CapitalEntry(entries.e), close, entries.w + [RBRACE], true);
    } else {
      var tail := entries.tail;
      assert ms[i + 1..] == ms[i..][1..] == DenoteEntries(libc, tail);
      NoneEmpty(libc, tail);
      EntriesFit(libc, tail, ms, i + 1);
      var p := PrintMember(libc, ms[i + 1]) + (PrintMembers(libc, ms, i + 2) + [RBRACE]);
      assert close == [COMMA] + p;
      SeparatedFits(p0, text0, CapitalEntry(entries.e), entries.w, entries.w', p, EntriesText(tail), CapitalEntries(tail));
    }
  }

  lemma NoneEmpty(libc: Libc, entries: Entries)
    requires WfEntries(libc, entries)
    ensures DenoteEntries(libc, entries) != []
  {}

  // ---------------------------------------------------------------- the printed text is one of them

  lemma {:induction false} CharsAreCapital(s: seq<byte>, i: nat)
    requires i <= |s|
    ensures CapitalChars(CharsOf(s, i))
    decreases |s| - i
  {
    hide CharOf, CapitalChar;
    if i < |s| {
      CharIsCapital(s[i]);
      CharsAreCapital(s, i + 1);
      assert CharsOf(s, i)[1..] == CharsOf(s, i + 1);
    }
  }

  lemma CharIsCapital(b: byte)
    ensures CapitalChar(CharOf(b))
  {
    DigitIsCapital(b / 16);
    DigitIsCapital(b % 16);
  }

  lemma DigitIsCapital(d: nat)
    requires d < 16
    ensures HEX_DIGITS[d] < 0x61
  {}

  lemma {:induction false} TreeIsCanonical(libc: Libc, v: Value)
    requires NumbersOk(libc, v) && Wf(libc, TreeOf(libc, v)) && Denote(libc, TreeOf(libc, v)) == v
    ensures Capital(TreeOf(libc, v)) && Formatted(libc, TreeOf(libc, v))
    decreases v
  {
    hide CharsOf, CapitalChars, WfChars, CharsValue, NumText, WfNum;
    match v
    case String(s) => CharsAreCapital(s, 0);
    case Array(es) => if es != [] { ItemsAreCanonical(libc, es, 0); }
    case Object(ms) => if ms != [] { EntriesAreCanonical(libc, ms, 0); }
    case _ =>
  }

  lemma {:induction false} ItemsAreCanonical(libc: Libc, es: seq<Value>, i: nat)
    requires i < |es| && forall j :: 0 <= j < |es| ==> NumbersOk(libc, es[j])
    requires WfItems(libc, ItemsOf(libc, es, i))
    ensures CapitalItems(ItemsOf(libc, es, i)) && FormattedItems(libc, ItemsOf(libc, es, i))
    decreases es, |es| - i
  {
    hide TreeOf, Denote, Wf, Formatted, Capital;
    PrintIsText(libc, es[i]);
    TreeIsCanonical(libc, es[i]);
    if i + 1 < |es| { ItemsAreCanonical(libc, es, i + 1); }
  }

  lemma {:induction false} EntriesAreCanonical(libc: Libc, ms: seq<Member>, i: nat)
    requires i < |ms| && forall j :: 0 <= j < |ms| ==> NumbersOk(libc, ms[j].v)
    requires WfEntries(libc, EntriesOf(libc, ms, i))
    ensures CapitalEntries(EntriesOf(libc, ms, i)) && FormattedEntries(libc, EntriesOf(libc, ms, i))
    decreases ms, |ms| - i
  {
    hide TreeOf, Denote, Wf, Formatted, Capital, CharsOf, CapitalChars;
    CharsAreCapital(ms[i].k, 0);
    PrintIsText(libc, ms[i].v);
    TreeIsCanonical(libc, ms[i].v);
    if i + 1 < |ms| { EntriesAreCanonical(libc, ms, i + 1); }
  }

  /** A value is printed as its one shortest spelling. */
  lemma PrintIsCanonical(libc: Libc, v: Value, s: seq<byte>)
    requires NumbersOk(libc, v)
    ensures Canonical(libc, v, s) <==> s == Print(libc, v)
  {
    hide Print, Text, Denote, Wf, Formatted, Capital, TreeOf, NumbersOk;
    var t := TreeOf(libc, v);
    PrintIsText(libc, v);
    TreeIsCanonical(libc, v);
    assert Spells(libc, t, v);
    forall u | Spells(libc, u, v)
      ensures Fits(Print(libc, v), Text(u), Capital(u))
    {
      ValueFits(libc, u);
    }
  }
}
