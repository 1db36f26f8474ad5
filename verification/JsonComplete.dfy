/** The parser accepts every derivation, whatever delimiter stands behind it, and returns what it denotes. */
module JsonComplete {
  import opened Bits
  import Utf8
  import opened Json
  import opened JsonParse
  import opened JsonGrammar

  lemma {:induction false} SkipWsOf(w: seq<byte>, rest: seq<byte>)
    requires AllWs(w) && !IsWs(Peek(rest))
    ensures SkipWs(w + rest) == rest
  {
    if w == [] {
      assert w + rest == rest;
    } else {
      assert (w + rest)[1..] == w[1..] + rest;
      SkipWsOf(w[1..], rest);
    }
  }

  lemma {:induction false} SkipDigitsOf(ds: seq<byte>, rest: seq<byte>)
    requires AllDigits(ds) && !IsDigit(Peek(rest))
    ensures SkipDigits(ds + rest) == rest
  {
    if ds == [] {
      assert ds + rest == rest;
    } else {
      assert (ds + rest)[1..] == ds[1..] + rest;
      SkipDigitsOf(ds[1..], rest);
    }
  }

  // ---------------------------------------------------------------- numbers

  lemma ScanDigitsOf(ds: seq<byte>, rest: seq<byte>)
    requires Digits(ds) && !IsDigit(Peek(rest))
    ensures ScanDigits(ds + rest) == Stop(rest)
  {
    assert (ds + rest)[1..] == ds[1..] + rest;
    SkipDigitsOf(ds[1..], rest);
  }

  lemma ScanIntOf(ds: seq<byte>, rest: seq<byte>)
    requires IsInt(ds) && (ds == [ZERO] || !IsDigit(Peek(rest)))
    ensures ScanInt(ds + rest) == Stop(rest)
  {
    assert (ds + rest)[1..] == ds[1..] + rest;
    if ds == [ZERO] {
      assert ds[1..] + rest == rest;
    } else {
      SkipDigitsOf(ds[1..], rest);
    }
  }

  lemma ScanFracOf(f: seq<byte>, rest: seq<byte>)
    requires IsFrac(f) && if f == [] then Peek(rest) != DOT else !IsDigit(Peek(rest))
    ensures ScanFrac(f + rest) == Stop(rest)
  {
    if f == [] {
      assert f + rest == rest;
    } else {
      assert (f + rest)[1..] == f[1..] + rest;
      ScanDigitsOf(f[1..], rest);
    }
  }

  lemma ScanExpOf(x: seq<byte>, rest: seq<byte>)
    requires IsExp(x) && if x == [] then !IsE(Peek(rest)) else !IsDigit(Peek(rest))
    ensures ScanExp(x + rest) == Stop(rest)
  {
    if x == [] {
      assert x + rest == rest;
    } else {
      var s := x + rest;
      assert s[1..] == x[1..] + rest;
      if Digits(x[1..]) {
        assert IsDigit(x[1..][0]);
        ScanDigitsOf(x[1..], rest);
      } else {
        assert s[2..] == x[2..] + rest;
        ScanDigitsOf(x[2..], rest);
      }
    }
  }

  lemma ScanNumberOf(num: NumLex, rest: seq<byte>)
    requires WfNum(num) && (Delimited(rest) || Stops(num, rest))
    ensures ScanNumber(NumText(num) + rest) == Stop(rest)
    ensures IsDigit(Peek(NumText(num))) || Peek(NumText(num)) == MINUS
  {
    hide ScanInt, ScanFrac, ScanExp, IsInt, IsFrac, IsExp, Stops, Delimited;
    var s := NumText(num) + rest;
    var s3 := num.exp + rest;
    var s2 := num.frac + s3;
    var s1 := num.integer + s2;
    NumberStart(num);
    assert s == num.minus + s1;
    assert (if Peek(s) == MINUS then s[1..] else s) == s1;
    NumberEnds(num, rest);
    ScanExpOf(num.exp, rest);
    ScanFracOf(num.frac, s3);
    ScanIntOf(num.integer, s2);
  }

  lemma NumberStart(num: NumLex)
    requires WfNum(num)
    ensures num.integer != [] && IsDigit(num.integer[0])
    ensures Peek(NumText(num)) == if num.minus == [] then num.integer[0] else MINUS
  {
    hide IsFrac, IsExp;
  }

  /** No part of a number is the beginning of a longer one. */
  lemma NumberEnds(num: NumLex, rest: seq<byte>)
    requires WfNum(num) && (Delimited(rest) || Stops(num, rest))
    ensures if num.exp == [] then !IsE(Peek(rest)) else !IsDigit(Peek(rest))
    ensures var s3 := num.exp + rest; if num.frac == [] then Peek(s3) != DOT else !IsDigit(Peek(s3))
    ensures num.integer == [ZERO] || !IsDigit(Peek(num.frac + (num.exp + rest)))
  {
    hide IsInt, Digits;
    var s3 := num.exp + rest;
    assert Peek(s3) == if num.exp == [] then Peek(rest) else num.exp[0];
    assert Peek(num.frac + s3) == if num.frac == [] then Peek(s3) else num.frac[0];
  }

  // ---------------------------------------------------------------- strings

  lemma Hex4Of(h: seq<byte>, rest: seq<byte>)
    requires FourHex(h)
    ensures Hex4(h + rest) == Good(HexNumber(h), rest)
  {
    var s := h + rest;
    assert Hex(s, 0) == Good(0, s);
    assert Hex(s, 1) == Good(HexValue(h[0]), s[1..]);
    assert Hex(s, 2) == Good(16 * HexValue(h[0]) + HexValue(h[1]), s[2..]);
    assert Hex(s, 3) == Good(16 * (16 * HexValue(h[0]) + HexValue(h[1])) + HexValue(h[2]), s[3..]);
    assert s[4..] == rest;
  }

  lemma UnitOf(h: seq<byte>, rest: seq<byte>)
    requires WfChar(Unit(h))
    ensures ParseUnicode(h + rest) == Good(HexNumber(h), rest)
  {
    hide Hex4;
    Hex4Of(h, rest);
  }

  lemma PairOf(h: seq<byte>, l: seq<byte>, rest: seq<byte>)
    requires WfChar(Pair(h, l))
    ensures ParseUnicode(h + ([BACKSLASH, 0x75] + l) + rest)
         == Good(0x10000 + 0x400 * (HexNumber(h) - 0xD800) + (HexNumber(l) - 0xDC00), rest)
  {
    hide Hex4, HexNumber, Utf8.Combine;
    var s1 := [BACKSLASH, 0x75] + (l + rest);
    assert h + ([BACKSLASH, 0x75] + l) + rest == h + s1;
    Hex4Of(h, s1);
    assert s1[1..][0] == 0x75 && s1[2..] == l + rest;
    Hex4Of(l, rest);
    Utf8.CombineIsSum(HexNumber(h), HexNumber(l));
  }

  /** The parser's escape table is the grammar's. */
  lemma EscapeTable(b: byte)
    ensures Unescaped(b) == if b in ESCAPES then ESCAPES[b] else -1
  {}

  lemma ParseLetterOf(b: byte, rest: seq<byte>)
    requires b in ESCAPES
    ensures ParseEscape(CharText(Escape(b))[1..] + rest) == Good(CharValue(Escape(b)), rest)
  {
    hide ParseUnicode, Unescaped, Utf8.Encode, Utf8.Distributed;
    var s := CharText(Escape(b))[1..] + rest;
    assert s[0] == b && s[1..] == rest;
    EscapeTable(b);
  }

  lemma ParseUnitOf(h: seq<byte>, rest: seq<byte>)
    requires WfChar(Unit(h))
    ensures ParseEscape(CharText(Unit(h))[1..] + rest) == Good(CharValue(Unit(h)), rest)
  {
    hide ParseUnicode, HexNumber, Unescaped, Utf8.Encode, Utf8.Distributed;
    var s := CharText(Unit(h))[1..] + rest;
    assert s[0] == 0x75 && s[1..] == h + rest;
    UnitOf(h, rest);
  }

  lemma ParsePairOf(h: seq<byte>, l: seq<byte>, rest: seq<byte>)
    requires WfChar(Pair(h, l))
    ensures ParseEscape(CharText(Pair(h, l))[1..] + rest) == Good(CharValue(Pair(h, l)), rest)
  {
    hide ParseUnicode, HexNumber, Unescaped, Utf8.Encode, Utf8.Distributed;
    var s := CharText(Pair(h, l))[1..] + rest;
    assert s[0] == 0x75 && s[1..] == h + ([BACKSLASH, 0x75] + l) + rest;
    PairOf(h, l, rest);
  }

  lemma ParseEscapeOf(c: CharT, rest: seq<byte>)
    requires WfChar(c) && !c.Plain?
    ensures ParseEscape(CharText(c)[1..] + rest) == Good(CharValue(c), rest)
  {
    hide ParseEscape;
    match c
    case Escape(b) => ParseLetterOf(b, rest);
    case Unit(h) => ParseUnitOf(h, rest);
    case Pair(h, l) => ParsePairOf(h, l, rest);
  }

  lemma ParseCharOf(c: CharT, read: seq<byte>, rest: seq<byte>)
    requires WfChar(c)
    ensures ParseChars(CharText(c) + rest, read) == ParseChars(rest, read + CharValue(c))
  {
    hide ParseEscape, CharValue, CharText, WfChar, ParseChars;
    if c.Plain? {
      ParsePlainOf(c.b, read, rest);
    } else {
      ParseEscapeOf(c, rest);
      EscapeStart(c, rest);
      EscapeTaken(CharText(c) + rest, read, CharValue(c), rest);
    }
  }

  lemma ParsePlainOf(b: byte, read: seq<byte>, rest: seq<byte>)
    requires WfChar(Plain(b))
    ensures ParseChars(CharText(Plain(b)) + rest, read) == ParseChars(rest, read + CharValue(Plain(b)))
  {
    hide ParseEscape;
    assert ([b] + rest)[1..] == rest;
  }

  lemma EscapeStart(c: CharT, rest: seq<byte>)
    requires !c.Plain?
    ensures CharText(c) != [] && (CharText(c) + rest)[0] == BACKSLASH
    ensures (CharText(c) + rest)[1..] == CharText(c)[1..] + rest
  {
    var text := CharText(c);
    assert text[0] == BACKSLASH;
    TailOf(text, rest);
  }

  lemma TailOf(text: seq<byte>, rest: seq<byte>)
    requires text != []
    ensures (text + rest)[1..] == text[1..] + rest
  {}

  lemma EscapeTaken(s: seq<byte>, read: seq<byte>, bs: seq<byte>, rest: seq<byte>)
    requires s != [] && s[0] == BACKSLASH && ParseEscape(s[1..]) == Good(bs, rest)
    ensures ParseChars(s, read) == ParseChars(rest, read + bs)
  {
    hide ParseEscape;
  }

  lemma {:induction false} ParseCharsOf(cs: seq<CharT>, read: seq<byte>, rest: seq<byte>)
    requires WfChars(cs)
    ensures ParseChars(CharsText(cs) + rest, read) == Good(read + CharsValue(cs), rest)
    decreases |cs|
  {
    hide CharText, CharValue, WfChar, ParseEscape;
    var s := CharsText(cs) + rest;
    if cs == [] {
      assert s[1..] == rest;
      assert read + CharsValue(cs) == read;
    } else {
      var c, tail := cs[0], CharsText(cs[1..]) + rest;
      assert s == CharText(c) + tail;
      ParseCharOf(c, read, tail);
      ParseCharsOf(cs[1..], read + CharValue(c), rest);
      assert (read + CharValue(c)) + CharsValue(cs[1..]) == read + CharsValue(cs);
    }
  }

  lemma ParseStringOf(cs: seq<CharT>, rest: seq<byte>)
    requires WfChars(cs)
    ensures var s := ([QUOTE] + CharsText(cs)) + rest; s[0] == QUOTE && ParseString(s) == Good(CharsValue(cs), rest)
  {
    hide ParseChars, CharsText, CharsValue;
    var s := ([QUOTE] + CharsText(cs)) + rest;
    assert s[1..] == CharsText(cs) + rest;
    ParseCharsOf(cs, [], rest);
    assert [] + CharsValue(cs) == CharsValue(cs);
  }

  // ---------------------------------------------------------------- values

  /** A value starts with a character of its own: no white space, no separator, no closing bracket. */
  lemma FirstOfText(libc: Libc, t: Tree)
    requires Wf(libc, t)
    ensures Text(t) != [] && !IsWs(Text(t)[0]) && Text(t)[0] !in {0, COMMA, COLON, RBRACKET, RBRACE}
  {
    if t.NumT? { ScanNumberOf(t.num, []); }
  }

  lemma FirstOfItems(libc: Libc, items: Items, rest: seq<byte>)
    requires WfItems(libc, items)
    ensures !IsWs(Peek(ItemsText(items) + rest)) && Peek(ItemsText(items) + rest) != RBRACKET
  {
    FirstOfText(libc, items.t);
  }

  lemma FirstOfEntries(entries: Entries, rest: seq<byte>)
    ensures Peek(EntriesText(entries) + rest) == QUOTE
  {}

  lemma WsThenDelimiter(w: seq<byte>, rest: seq<byte>)
    requires AllWs(w) && Delimited(rest)
    ensures Delimited(w + rest)
  {
    if w == [] { assert w + rest == rest; }
  }

  lemma ParseLeafOf(libc: Libc, t: Tree, rest: seq<byte>)
    requires StrtodIsLocal(libc) && Wf(libc, t) && (Delimited(rest) || !t.NumT?)
    requires t.NullT? || t.FalseT? || t.TrueT? || t.NumT? || t.StrT?
    ensures ParseValue(libc, Text(t) + rest) == Good(Denote(libc, t), rest)
  {
    hide ScanNumber, NumText, ParseString, CharsText, CharsValue, WfNum, WfChars, ParseElements, ParseMembers;
    var s := Text(t) + rest;
    match t
    case NullT => assert s[4..] == rest;
    case TrueT => assert s[4..] == rest;
    case FalseT => assert s[5..] == rest;
    case NumT(num) => ScanNumberOf(num, rest);
    case StrT(cs) => ParseStringOf(cs, rest);
  }

  lemma ParseEmptyOf(libc: Libc, t: Tree, rest: seq<byte>)
    requires Wf(libc, t) && (t.EmptyArrT? || t.EmptyObjT?)
    ensures ParseValue(libc, Text(t) + rest) == Good(Denote(libc, t), rest)
  {
    hide ParseNumber, ParseString, ParseElements, ParseMembers;
    var s := Text(t) + rest;
    var close := if t.EmptyArrT? then [RBRACKET] else [RBRACE];
    assert s[1..] == t.w + (close + rest);
    SkipWsOf(t.w, close + rest);
    assert (close + rest)[1..] == rest;
  }

  /** Only a number needs a delimiter behind it. */
  lemma {:induction false} ParseValueOf(libc: Libc, t: Tree, rest: seq<byte>)
    requires StrtodIsLocal(libc) && Wf(libc, t) && (Delimited(rest) || !t.NumT?)
    ensures ParseValue(libc, Text(t) + rest) == Good(Denote(libc, t), rest)
    decreases t
  {
    hide ParseNumber, ParseString, ParseElements, ParseMembers, ItemsText, EntriesText;
    var s := Text(t) + rest;
    match t {
      case EmptyArrT(_) => ParseEmptyOf(libc, t, rest);
      case EmptyObjT(_) => ParseEmptyOf(libc, t, rest);
      case ArrT(w, items) =>
        var s1 := ItemsText(items) + rest;
        assert s[1..] == w + s1;
        FirstOfItems(libc, items, rest);
        SkipWsOf(w, s1);
        ParseElementsOf(libc, items, [], rest);
        assert [] + DenoteItems(libc, items) == DenoteItems(libc, items);
      case ObjT(w, entries) =>
        var s1 := EntriesText(entries) + rest;
        assert s[1..] == w + s1;
        FirstOfEntries(entries, rest);
        SkipWsOf(w, s1);
        ParseMembersOf(libc, entries, [], rest);
        assert [] + DenoteEntries(libc, entries) == DenoteEntries(libc, entries);
      case _ => ParseLeafOf(libc, t, rest);
    }
  }

  lemma {:induction false} ParseElementsOf(libc: Libc, items: Items, read: seq<Value>, rest: seq<byte>)
    requires StrtodIsLocal(libc) && WfItems(libc, items)
    ensures ParseElements(libc, ItemsText(items) + rest, read) == Good(Array(read + DenoteItems(libc, items)), rest)
    decreases items
  {
    hide ParseValue, Text, Denote, Wf;
    var s := ItemsText(items) + rest;
    match items
    case LastItem(t, w) =>
      var s2 := [RBRACKET] + rest;
      assert s == Text(t) + (w + s2);
      WsThenDelimiter(w, s2);
      ParseValueOf(libc, t, w + s2);
      SkipWsOf(w, s2);
      assert s2[1..] == rest;
    case MoreItems(t, w, w', tail) =>
      var s3 := ItemsText(tail) + rest;
      var s2 := [COMMA] + (w' + s3);
      assert s == Text(t) + (w + s2);
      WsThenDelimiter(w, s2);
      ParseValueOf(libc, t, w + s2);
      SkipWsOf(w, s2);
      assert s2[1..] == w' + s3;
      FirstOfItems(libc, tail, rest);
      SkipWsOf(w', s3);
      var v := Denote(libc, t);
      ParseElementsOf(libc, tail, read + [v], rest);
      assert (read + [v]) + DenoteItems(libc, tail) == read + DenoteItems(libc, items);
  }

  lemma {:induction false} ParseMemberOf(libc: Libc, e: Entry, rest: seq<byte>)
    requires StrtodIsLocal(libc) && WfEntry(libc, e) && Delimited(rest)
    ensures ParseMember(libc, EntryText(e) + rest) == Good(DenoteEntry(libc, e), rest)
    decreases e
  {
    hide ParseValue, ParseString, CharsText, CharsValue, Text, Denote, Wf;
    var s3 := Text(e.t) + rest;
    var s2 := [COLON] + (e.w' + s3);
    var s1 := e.w + s2;
    assert EntryText(e) + rest == ([QUOTE] + CharsText(e.k)) + s1;
    ParseStringOf(e.k, s1);
    SkipWsOf(e.w, s2);
    assert s2[1..] == e.w' + s3;
    FirstOfText(libc, e.t);
    SkipWsOf(e.w', s3);
    ParseValueOf(libc, e.t, rest);
  }

  lemma {:induction false} ParseMembersOf(libc: Libc, entries: Entries, read: seq<Member>, rest: seq<byte>)
    requires StrtodIsLocal(libc) && WfEntries(libc, entries)
    ensures ParseMembers(libc, EntriesText(entries) + rest, read)
         == Good(Object(read + DenoteEntries(libc, entries)), rest)
    decreases entries
  {
    hide ParseMember, EntryText, DenoteEntry, Wf, Text, Denote, CharsText, SkipWs, AllWs;
    var s := EntriesText(entries) + rest;
    match entries
    case LastEntry(e, w) =>
      var s2 := [RBRACE] + rest;
      assert s == EntryText(e) + (w + s2);
      WsThenDelimiter(w, s2);
      ParseMemberOf(libc, e, w + s2);
      SkipWsOf(w, s2);
      assert s2[1..] == rest;
    case MoreEntries(e, w, w', tail) =>
      var s3 := EntriesText(tail) + rest;
      var s2 := [COMMA] + (w' + s3);
      assert s == EntryText(e) + (w + s2);
      WsThenDelimiter(w, s2);
      ParseMemberOf(libc, e, w + s2);
      SkipWsOf(w, s2);
      assert s2[1..] == w' + s3;
      FirstOfEntries(tail, rest);
      SkipWsOf(w', s3);
      var m := DenoteEntry(libc, e);
      ParseMembersOf(libc, tail, read + [m], rest);
      assert (read + [m]) + DenoteEntries(libc, tail) == read + DenoteEntries(libc, entries);
  }

  /** Every text of the grammar is accepted, with the value its derivation denotes. */
  lemma ParseAccepts(libc: Libc, s: seq<byte>, w: seq<byte>, t: Tree, w': seq<byte>)
    requires StrtodIsLocal(libc) && IsDerivation(libc, s, w, t, w')
    ensures Parse(libc, s) == Good(Denote(libc, t), [])
  {
    FirstOfText(libc, t);
    SkipWsOf(w, Text(t) + w');
    ParseValueOf(libc, t, w');
    SkipWsOf(w', []);
    assert w' + [] == w';
  }
}
