/** Which status the parser answers: exactly the one of what is wrong with the text. */
module JsonErrors {
  import opened Bits
  import Utf8
  import opened Json
  import opened JsonParse
  import opened JsonGrammar
  import opened JsonFailures
  import opened JsonComplete
  import opened JsonSound

  // ---------------------------------------------------------------- strings

  lemma TailIsNulFree(text: seq<byte>, tail: seq<byte>)
    requires 0 !in text + tail
    ensures 0 !in tail
  {
    assert forall b :: b in tail ==> b in text + tail;
  }

  lemma {:induction false} HexIff(s: seq<byte>, n: nat)
    ensures Hex(s, n).Good? <==> n <= |s| && forall i :: 0 <= i < n ==> IsHex(s[i])
    ensures if Hex(s, n).Good? then Hex(s, n).rest == s[n..] else Hex(s, n) == Bad(InvalidUnicodeHex)
  {
    if n > 0 {
      HexIff(s, n - 1);
    }
  }

  lemma Hex4Iff(s: seq<byte>)
    ensures if FourHexAhead(s) then Hex4(s) == Good(HexNumber(s[..4]), s[4..]) else Hex4(s) == Bad(InvalidUnicodeHex)
  {
    hide Hex;
    HexIff(s, 4);
    if FourHexAhead(s) {
      assert s == s[..4] + s[4..];
      Hex4Of(s[..4], s[4..]);
    }
  }

  lemma BadPairOf(f: CharFault, s: seq<byte>)
    requires WfFault(f) && (f.LoneHigh? || f.NoLowHex? || f.NotLow?) && FaultText(f) == [BACKSLASH, 0x75] + s
    ensures ParseUnicode(s) == Bad(FaultStatus(f))
  {
    hide Hex4, HexNumber, FourHexAhead;
    assert FaultText(f)[2..] == s;
    var s1 := s[4..];
    assert s == f.h + s1;
    Hex4Of(f.h, s1);
    if f.LoneHigh? {
      assert s1 == f.rest;
    } else {
      assert s1 == [BACKSLASH, 0x75] + s1[2..];
      assert s1[1..][0] == 0x75;
      if f.NoLowHex? {
        assert s1[2..] == f.rest;
        Hex4Iff(f.rest);
      } else {
        assert s1[2..] == f.l + f.rest;
        Hex4Of(f.l, f.rest);
      }
    }
  }

  lemma NoHexOf(s: seq<byte>)
    requires !FourHexAhead(s)
    ensures ParseUnicode(s) == Bad(InvalidUnicodeHex)
  {
    hide Hex4;
    Hex4Iff(s);
  }

  lemma FaultOf(f: CharFault, read: seq<byte>)
    requires WfFault(f)
    ensures ParseChars(FaultText(f), read) == Bad(FaultStatus(f))
  {
    hide ParseUnicode, Unescaped, Hex4, FourHexAhead, HexNumber;
    var s := FaultText(f);
    match f
    case EndOfText =>
    case ControlByte(_) =>
    case NoEscape(rest) =>
      assert s[1..] == rest;
      if rest != [] { EscapeTable(rest[0]); }
    case NoHex(rest) =>
      assert s[1..][1..] == rest;
      NoHexOf(rest);
    case _ =>
      assert s == [BACKSLASH, 0x75] + s[2..];
      assert s[1..][1..] == s[2..];
      BadPairOf(f, s[2..]);
  }

  lemma {:induction false} BadCharsOf(cs: seq<CharT>, f: CharFault, read: seq<byte>)
    requires WfChars(cs) && WfFault(f)
    ensures ParseChars(OpenText(cs) + FaultText(f), read) == Bad(FaultStatus(f))
    decreases |cs|
  {
    hide ParseChars, CharText, CharValue, WfChar, FaultText, FaultStatus, WfFault;
    FaultOf(f, read);
    if cs == [] {
      assert OpenText(cs) + FaultText(f) == FaultText(f);
    } else {
      var tail := OpenText(cs[1..]) + FaultText(f);
      assert OpenText(cs) + FaultText(f) == CharText(cs[0]) + tail;
      ParseCharOf(cs[0], read, tail);
      BadCharsOf(cs[1..], f, read + CharValue(cs[0]));
    }
  }

  lemma BadStringOf(cs: seq<CharT>, f: CharFault)
    requires WfChars(cs) && WfFault(f)
    ensures var s := [QUOTE] + (OpenText(cs) + FaultText(f)); s[0] == QUOTE && ParseString(s) == Bad(FaultStatus(f))
  {
    hide ParseChars, OpenText, FaultText, FaultStatus, WfFault;
    var s := [QUOTE] + (OpenText(cs) + FaultText(f));
    assert s[1..] == OpenText(cs) + FaultText(f);
    BadCharsOf(cs, f, []);
  }

  lemma UnicodeFault(s: seq<byte>) returns (f: CharFault)
    requires ParseUnicode(s).Bad?
    ensures WfFault(f) && [BACKSLASH, 0x75] + s == FaultText(f) && ParseUnicode(s).status == FaultStatus(f)
  {
    hide Hex4, HexNumber, FourHex;
    Hex4Iff(s);
    if !FourHexAhead(s) {
      f := NoHex(s);
    } else {
      var h, s1 := s[..4], s[4..];
      assert s == h + s1;
      if !([BACKSLASH, 0x75] <= s1) {
        f := LoneHigh(h, s1);
      } else {
        var s2 := s1[2..];
        assert s1 == [BACKSLASH, 0x75] + s2;
        Hex4Iff(s2);
        if !FourHexAhead(s2) {
          f := NoLowHex(h, s2);
        } else {
          assert s2 == s2[..4] + s2[4..];
          f := NotLow(h, s2[..4], s2[4..]);
        }
      }
    }
  }

  lemma EscapeFault(s: seq<byte>) returns (f: CharFault)
    requires ParseEscape(s).Bad?
    ensures WfFault(f) && [BACKSLASH] + s == FaultText(f) && ParseEscape(s).status == FaultStatus(f)
  {
    hide ParseUnicode, Unescaped;
    if Peek(s) == 0x75 {
      f := UnicodeFault(s[1..]);
      assert [BACKSLASH] + s == [BACKSLASH, 0x75] + s[1..];
    } else {
      f := NoEscape(s);
      if s != [] { EscapeTable(s[0]); }
    }
  }

  lemma {:induction false} CharsFault(s: seq<byte>, read: seq<byte>) returns (cs: seq<CharT>, f: CharFault)
    requires 0 !in s && ParseChars(s, read).Bad?
    ensures WfChars(cs) && WfFault(f) && s == OpenText(cs) + FaultText(f) && ParseChars(s, read).status == FaultStatus(f)
    decreases |s|
  {
    hide ParseEscape, WfChar, CharText, CharValue, WfFault, FaultText, FaultStatus;
    if NoChar(s) {
      f := HeadFault(s, read);
      cs := [];
      assert [] + FaultText(f) == FaultText(f);
    } else {
      var c, tail := ParsedChar(s, read);
      TailIsNulFree(CharText(c), tail);
      cs, f := CharsFault(tail, read + CharValue(c));
      OpenOf(c, cs, FaultText(f));
      cs := [c] + cs;
    }
  }

  lemma OpenOf(c: CharT, cs: seq<CharT>, tail: seq<byte>)
    requires WfChar(c) && WfChars(cs)
    ensures WfChars([c] + cs) && OpenText([c] + cs) + tail == CharText(c) + (OpenText(cs) + tail)
  {
    hide WfChar, CharText;
    assert ([c] + cs)[1..] == cs;
  }

  /** Neither the closing quote nor a character is ahead. */
  predicate NoChar(s: seq<byte>) {
    s == [] || (s[0] < 0x20) || (s[0] == BACKSLASH && ParseEscape(s[1..]).Bad?)
  }

  lemma HeadFault(s: seq<byte>, read: seq<byte>) returns (f: CharFault)
    requires 0 !in s && NoChar(s)
    ensures WfFault(f) && s == FaultText(f) && ParseChars(s, read) == Bad(FaultStatus(f))
  {
    hide ParseEscape, FourHexAhead, HexNumber;
    if s == [] {
      f := EndOfText;
    } else if s[0] < 0x20 {
      f := ControlByte(s);
    } else {
      f := EscapeFault(s[1..]);
      assert s == [BACKSLASH] + s[1..];
    }
  }

  lemma StringFault(s: seq<byte>) returns (cs: seq<CharT>, f: CharFault)
    requires 0 !in s && Peek(s) == QUOTE && ParseString(s).Bad?
    ensures WfChars(cs) && WfFault(f) && s == [QUOTE] + (OpenText(cs) + FaultText(f))
    ensures ParseString(s).status == FaultStatus(f)
  {
    hide ParseChars, OpenText, FaultText, FaultStatus, WfFault;
    cs, f := CharsFault(s[1..], []);
    assert s == [QUOTE] + s[1..];
  }

  // ---------------------------------------------------------------- what breaks off fails

  /** A value is taken whatever stands behind it. */
  lemma TakeOf(libc: Libc, t: Tree, rest: seq<byte>)
    requires StrtodIsLocal(libc) && Takes(libc, t, rest)
    ensures ParseValue(libc, Text(t) + rest).Good? && ParseValue(libc, Text(t) + rest).rest == rest
  {
    hide ScanNumber, NumText, WfNum, Stops, ParseElements, ParseMembers, ParseString;
    if t.NumT? {
      ScanNumberOf(t.num, rest);
    } else {
      ParseValueOf(libc, t, rest);
    }
  }

  lemma NotNumberOf(s: seq<byte>)
    ensures ScanNumber(s).Reject? <==> !StartsNumber(s)
    ensures StartsNumber(s) ==> IsDigit(Peek(s)) || Peek(s) == MINUS
  {
    hide ScanNumber, NumText, WfNum, Stops;
    if ScanNumber(s).Stop? {
      var num := ScannedNumber(s);
      assert IsNumberAhead(s, num, ScanNumber(s).rest);
    }
    if StartsNumber(s) {
      var num, rest :| IsNumberAhead(s, num, rest);
      ScanNumberOf(num, rest);
    }
  }

  lemma FirstOfBreak(libc: Libc, b: Break)
    requires WfBreak(libc, b)
    ensures !StartsWs(BreakText(b))
  {
    if b.TooBig? { ScanNumberOf(b.num, b.rest); }
  }

  lemma FirstOfTaken(libc: Libc, t: Tree, rest: seq<byte>)
    requires Takes(libc, t, rest)
    ensures Text(t) != [] && !IsWs(Text(t)[0])
  {
    if t.NumT? { ScanNumberOf(t.num, rest); } else { FirstOfText(libc, t); }
  }

  lemma FirstOfBadItems(libc: Libc, items: BadItems)
    requires WfBadItems(libc, items)
    ensures !StartsWs(BadItemsText(items))
  {
    hide WfBreak, Text, Takes;
    match items
    case BadItem(b) => FirstOfBreak(libc, b);
    case NoComma(t, w, rest) => FirstOfTaken(libc, t, w + rest);
    case ThenItems(t, _, _, _) => FirstOfText(libc, t);
  }

  lemma FirstOfBadEntries(libc: Libc, entries: BadEntries)
    requires WfBadEntries(libc, entries)
    ensures !StartsWs(BadEntriesText(entries))
  {}

  lemma FailLeafOf(libc: Libc, b: Break)
    requires WfBreak(libc, b) && !b.BadArr? && !b.BadObj?
    ensures ParseValue(libc, BreakText(b)) == Bad(BreakStatus(b))
  {
    hide ScanNumber, NumText, WfNum, Stops, ParseElements, ParseMembers, ParseString, OpenText, FaultText, WfFault;
    match b
    case NoValue =>
    case NotValue(rest) => NotNumberOf(rest);
    case TooBig(num, rest) => ScanNumberOf(num, rest);
    case BadStr(cs, f) => BadStringOf(cs, f);
  }

  lemma {:induction false} FailOf(libc: Libc, b: Break)
    requires StrtodIsLocal(libc) && WfBreak(libc, b)
    ensures ParseValue(libc, BreakText(b)) == Bad(BreakStatus(b))
    decreases b
  {
    hide ParseNumber, ParseString, ParseElements, ParseMembers, BadItemsText, BadEntriesText;
    var s := BreakText(b);
    match b {
      case BadArr(w, items) =>
        assert s[1..] == w + BadItemsText(items);
        FirstOfBadItems(libc, items);
        SkipWsOf(w, BadItemsText(items));
        FailItemsOf(libc, items, []);
      case BadObj(w, entries) =>
        assert s[1..] == w + BadEntriesText(entries);
        FirstOfBadEntries(libc, entries);
        SkipWsOf(w, BadEntriesText(entries));
        FailEntriesOf(libc, entries, []);
      case _ => FailLeafOf(libc, b);
    }
  }

  lemma {:induction false} FailItemsOf(libc: Libc, items: BadItems, read: seq<Value>)
    requires StrtodIsLocal(libc) && WfBadItems(libc, items)
    ensures ParseElements(libc, BadItemsText(items), read) == Bad(BadItemsStatus(items))
    decreases items
  {
    hide ParseValue, Text, Denote, Wf, BreakText, WfBreak, Takes;
    match items
    case BadItem(b) => FailOf(libc, b);
    case NoComma(t, w, rest) =>
      TakeOf(libc, t, w + rest);
      SkipWsOf(w, rest);
    case ThenItems(t, w, w', tail) =>
      var s3 := BadItemsText(tail);
      var s2 := [COMMA] + (w' + s3);
      WsThenDelimiter(w, s2);
      ParseValueOf(libc, t, w + s2);
      SkipWsOf(w, s2);
      assert s2[1..] == w' + s3;
      FirstOfBadItems(libc, tail);
      SkipWsOf(w', s3);
      FailItemsOf(libc, tail, read + [Denote(libc, t)]);
  }

  lemma KeyOf(k: seq<CharT>, w: seq<byte>, w': seq<byte>, rest: seq<byte>)
    requires WfChars(k) && AllWs(w) && AllWs(w') && !StartsWs(rest)
    ensures ParseKey(([QUOTE] + CharsText(k)) + (w + ([COLON] + (w' + rest)))) == Good(CharsValue(k), rest)
  {
    hide ParseString, CharsText, CharsValue;
    var s2 := [COLON] + (w' + rest);
    ParseStringOf(k, w + s2);
    SkipWsOf(w, s2);
    assert s2[1..] == w' + rest;
    SkipWsOf(w', rest);
  }

  lemma FailKeyOf(libc: Libc, entries: BadEntries)
    requires WfBadEntries(libc, entries) && (entries.NoKey? || entries.BadKey? || entries.NoColon?)
    ensures ParseKey(BadEntriesText(entries)) == Bad(BadEntriesStatus(entries))
  {
    hide ParseString, CharsText, CharsValue, OpenText, FaultText, WfFault;
    match entries
    case NoKey(_) =>
    case BadKey(cs, f) => BadStringOf(cs, f);
    case NoColon(k, w, rest) =>
      ParseStringOf(k, w + rest);
      SkipWsOf(w, rest);
  }

  lemma TakeMemberOf(libc: Libc, e: Entry, rest: seq<byte>)
    requires StrtodIsLocal(libc) && WfChars(e.k) && AllWs(e.w) && AllWs(e.w') && Takes(libc, e.t, rest)
    ensures ParseMember(libc, EntryText(e) + rest).Good? && ParseMember(libc, EntryText(e) + rest).rest == rest
  {
    hide ParseValue, ParseKey, CharsText, CharsValue, Text, Takes;
    RegroupEntry([QUOTE] + CharsText(e.k), e.w, e.w', Text(e.t), rest);
    FirstOfTaken(libc, e.t, rest);
    KeyOf(e.k, e.w, e.w', Text(e.t) + rest);
    TakeOf(libc, e.t, rest);
  }

  lemma {:induction false} FailEntriesOf(libc: Libc, entries: BadEntries, read: seq<Member>)
    requires StrtodIsLocal(libc) && WfBadEntries(libc, entries)
    ensures ParseMembers(libc, BadEntriesText(entries), read) == Bad(BadEntriesStatus(entries))
    decreases entries
  {
    hide ParseKey, ParseValue, EntryText, DenoteEntry, Wf, Text, CharsText, BreakText, WfBreak, Takes, SkipWs, AllWs;
    match entries
    case BadEntry(k, w, w', b) =>
      FirstOfBreak(libc, b);
      KeyOf(k, w, w', BreakText(b));
      FailOf(libc, b);
    case NoEntryComma(e, w, rest) =>
      TakeMemberOf(libc, e, w + rest);
      SkipWsOf(w, rest);
    case ThenEntries(e, w, w', tail) =>
      var s3 := BadEntriesText(tail);
      var s2 := [COMMA] + (w' + s3);
      WsThenDelimiter(w, s2);
      ParseMemberOf(libc, e, w + s2);
      SkipWsOf(w, s2);
      assert s2[1..] == w' + s3;
      FirstOfBadEntries(libc, tail);
      SkipWsOf(w', s3);
      FailEntriesOf(libc, tail, read + [DenoteEntry(libc, e)]);
    case _ => FailKeyOf(libc, entries);
  }

  // ---------------------------------------------------------------- what fails breaks off

  lemma Taken(libc: Libc, s: seq<byte>) returns (t: Tree)
    requires StrtodIsLocal(libc) && ParseValue(libc, s).Good?
    ensures Takes(libc, t, ParseValue(libc, s).rest) && s == Text(t) + ParseValue(libc, s).rest
  {
    hide ScanNumber, NumText, WfNum, Stops, ParseElements, ParseMembers, ParseString;
    if Starts(s, LBRACKET) {
      t := ParsedArray(libc, s);
      NumberStarts(libc, t);
    } else if Starts(s, LBRACE) {
      t := ParsedObject(libc, s);
      NumberStarts(libc, t);
    } else if ParseValue(libc, s).value.Number? {
      var num := ScannedNumber(s);
      t := NumT(num);
    } else {
      t := ParsedLeaf(libc, s);
    }
  }

  lemma NumberStarts(libc: Libc, t: Tree)
    requires Wf(libc, t)
    ensures Text(t) != []
    ensures t.NumT? ==> IsDigit(Text(t)[0]) || Text(t)[0] == MINUS
  {
    FirstOfText(libc, t);
    if t.NumT? { ScanNumberOf(t.num, []); }
  }

  lemma LeafBreak(libc: Libc, s: seq<byte>) returns (b: Break)
    requires 0 !in s && !StartsWs(s) && ParseValue(libc, s).Bad? && !Starts(s, LBRACKET) && !Starts(s, LBRACE)
    ensures WfBreak(libc, b) && s == BreakText(b) && ParseValue(libc, s).status == BreakStatus(b)
  {
    hide ScanNumber, NumText, WfNum, Stops, ParseElements, ParseMembers, ParseString, OpenText, FaultText, WfFault;
    if s == [] {
      b := NoValue;
    } else if s[0] == QUOTE {
      var cs, f := StringFault(s);
      b := BadStr(cs, f);
    } else {
      NotNumberOf(s);
      if ParseValue(libc, s).status == NumberTooBig {
        var num := ScannedNumber(s);
        b := TooBig(num, ScanNumber(s).rest);
      } else {
        b := NotValue(s);
      }
    }
  }

  lemma {:induction false} BreakIn(libc: Libc, s: seq<byte>) returns (b: Break)
    requires StrtodIsLocal(libc) && 0 !in s && !StartsWs(s) && ParseValue(libc, s).Bad?
    ensures WfBreak(libc, b) && s == BreakText(b) && ParseValue(libc, s).status == BreakStatus(b)
    decreases |s|, 0
  {
    hide ParseNumber, ParseString, ParseElements, ParseMembers, BadItemsText, BadEntriesText, SkipWs, AllWs;
    if Starts(s, LBRACKET) {
      var w := SkippedWs(s[1..]);
      var s1 := SkipWs(s[1..]);
      assert s == ([LBRACKET] + w) + s1;
      TailIsNulFree([LBRACKET] + w, s1);
      var items := ItemsBreak(libc, s1, []);
      b := BadArr(w, items);
    } else if Starts(s, LBRACE) {
      var w := SkippedWs(s[1..]);
      var s1 := SkipWs(s[1..]);
      assert s == ([LBRACE] + w) + s1;
      TailIsNulFree([LBRACE] + w, s1);
      var entries := EntriesBreak(libc, s1, []);
      b := BadObj(w, entries);
    } else {
      b := LeafBreak(libc, s);
    }
  }

  lemma {:induction false} ItemsBreak(libc: Libc, s: seq<byte>, read: seq<Value>) returns (items: BadItems)
    requires StrtodIsLocal(libc) && 0 !in s && !StartsWs(s) && ParseElements(libc, s, read).Bad?
    ensures WfBadItems(libc, items) && s == BadItemsText(items) && ParseElements(libc, s, read).status == BadItemsStatus(items)
    decreases |s|, 1
  {
    hide ParseValue, Text, Denote, Wf, BreakText, WfBreak, Takes, SkipWs, AllWs;
    if ParseValue(libc, s).Bad? {
      var b := BreakIn(libc, s);
      items := BadItem(b);
    } else {
      var s1 := ParseValue(libc, s).rest;
      var w := SkippedWs(s1);
      var s2 := SkipWs(s1);
      if Peek(s2) == COMMA {
        WsThenDelimiter(w, s2);
        var t := ParsedValue(libc, s);
        var w' := SkippedWs(s2[1..]);
        var s3 := SkipWs(s2[1..]);
        assert s2 == [COMMA] + (w' + s3);
        TailAfter(Text(t), w, w', s3);
        var tail := ItemsBreak(libc, s3, read + [ParseValue(libc, s).value]);
        items := ThenItems(t, w, w', tail);
      } else {
        var t := Taken(libc, s);
        items := NoComma(t, w, s2);
      }
    }
  }

  lemma TailAfter(t: seq<byte>, w: seq<byte>, w': seq<byte>, tail: seq<byte>)
    requires 0 !in t + (w + ([COMMA] + (w' + tail)))
    ensures 0 !in tail
  {
    TailIsNulFree(t, w + ([COMMA] + (w' + tail)));
    TailIsNulFree(w, [COMMA] + (w' + tail));
    TailIsNulFree([COMMA], w' + tail);
    TailIsNulFree(w', tail);
  }

  lemma KeyBreak(libc: Libc, s: seq<byte>) returns (entries: BadEntries)
    requires 0 !in s && !StartsWs(s) && ParseKey(s).Bad?
    ensures WfBadEntries(libc, entries) && s == BadEntriesText(entries) && ParseKey(s).status == BadEntriesStatus(entries)
  {
    hide ParseString, CharsText, CharsValue, OpenText, FaultText, WfFault, SkipWs, AllWs;
    if !Starts(s, QUOTE) {
      entries := NoKey(s);
    } else if ParseString(s).Bad? {
      var cs, f := StringFault(s);
      entries := BadKey(cs, f);
    } else {
      var k := ParsedString(s);
      var s1 := ParseString(s).rest;
      var w := SkippedWs(s1);
      entries := NoColon(k, w, SkipWs(s1));
    }
  }

  lemma TakenMember(libc: Libc, s: seq<byte>) returns (e: Entry)
    requires StrtodIsLocal(libc) && ParseMember(libc, s).Good?
    ensures WfChars(e.k) && AllWs(e.w) && AllWs(e.w') && Takes(libc, e.t, ParseMember(libc, s).rest)
    ensures s == EntryText(e) + ParseMember(libc, s).rest
  {
    hide ParseValue, ParseKey, CharsText, Text, Takes, AllWs;
    var k, w, w' := ParsedKey(s);
    var s1 := ParseKey(s).rest;
    var t := Taken(libc, s1);
    e := Entry(k, w, w', t);
    RegroupEntry([QUOTE] + CharsText(k), w, w', Text(t), ParseValue(libc, s1).rest);
  }

  lemma {:induction false} MemberBreak(libc: Libc, s: seq<byte>) returns (entries: BadEntries)
    requires StrtodIsLocal(libc) && 0 !in s && !StartsWs(s) && ParseMember(libc, s).Bad?
    ensures WfBadEntries(libc, entries) && s == BadEntriesText(entries)
    ensures ParseMember(libc, s).status == BadEntriesStatus(entries)
    decreases |s|, 1
  {
    hide ParseKey, ParseValue, CharsText, BreakText, WfBreak, AllWs;
    if ParseKey(s).Bad? {
      entries := KeyBreak(libc, s);
    } else {
      var k, w, w' := ParsedKey(s);
      var s1 := ParseKey(s).rest;
      var before := ([QUOTE] + CharsText(k)) + (w + ([COLON] + w'));
      assert s == before + s1;
      TailIsNulFree(before, s1);
      var b := BreakIn(libc, s1);
      entries := BadEntry(k, w, w', b);
    }
  }

  lemma {:induction false} EntriesBreak(libc: Libc, s: seq<byte>, read: seq<Member>) returns (entries: BadEntries)
    requires StrtodIsLocal(libc) && 0 !in s && !StartsWs(s) && ParseMembers(libc, s, read).Bad?
    ensures WfBadEntries(libc, entries) && s == BadEntriesText(entries)
    ensures ParseMembers(libc, s, read).status == BadEntriesStatus(entries)
    decreases |s|, 2
  {
    hide ParseMember, EntryText, DenoteEntry, WfEntry, Takes, SkipWs, AllWs, WfBreak, BreakText, CharsText;
    if ParseMember(libc, s).Bad? {
      entries := MemberBreak(libc, s);
    } else {
      var s1 := ParseMember(libc, s).rest;
      var w := SkippedWs(s1);
      var s2 := SkipWs(s1);
      if Peek(s2) == COMMA {
        WsThenDelimiter(w, s2);
        var e := ParsedMember(libc, s);
        var w' := SkippedWs(s2[1..]);
        var s3 := SkipWs(s2[1..]);
        assert s2 == [COMMA] + (w' + s3);
        TailAfter(EntryText(e), w, w', s3);
        var tail := EntriesBreak(libc, s3, read + [ParseMember(libc, s).value]);
        entries := ThenEntries(e, w, w', tail);
      } else {
        var e := TakenMember(libc, s);
        entries := NoEntryComma(e, w, s2);
      }
    }
  }

  // ---------------------------------------------------------------- texts

  lemma BreaksOffFails(libc: Libc, s: seq<byte>, w: seq<byte>, b: Break)
    requires StrtodIsLocal(libc) && BreaksOff(libc, s, w, b)
    ensures Parse(libc, s) == Bad(BreakStatus(b))
  {
    hide ParseValue, WfBreak, BreakText;
    FirstOfBreak(libc, b);
    SkipWsOf(w, BreakText(b));
    FailOf(libc, b);
  }

  lemma HasMoreFails(libc: Libc, s: seq<byte>, w: seq<byte>, t: Tree, rest: seq<byte>)
    requires StrtodIsLocal(libc) && 0 !in s && HasMore(libc, s, w, t, rest)
    ensures Parse(libc, s) == Bad(RootNotSingular)
  {
    hide ParseValue, Takes, Text, SkipWs;
    FirstOfTaken(libc, t, rest);
    SkipWsOf(w, Text(t) + rest);
    TakeOf(libc, t, rest);
    TailIsNulFree(w, Text(t) + rest);
    TailIsNulFree(Text(t), rest);
    var w' := SkippedWs(rest);
    TailIsNulFree(w', SkipWs(rest));
  }

  lemma FailureFound(libc: Libc, s: seq<byte>)
    requires StrtodIsLocal(libc) && 0 !in s && Parse(libc, s).Bad?
    ensures FailsWith(libc, s, Parse(libc, s).status)
  {
    hide ParseValue, Takes, Text, BreakText, BreakStatus, WfBreak, SkipWs, AllWs;
    var w := SkippedWs(s);
    var s0 := SkipWs(s);
    TailIsNulFree(w, s0);
    if ParseValue(libc, s0).Bad? {
      var b := BreakIn(libc, s0);
      assert BreaksOff(libc, s, w, b);
    } else {
      var t := Taken(libc, s0);
      var rest := ParseValue(libc, s0).rest;
      MoreThanWs(rest);
      assert HasMore(libc, s, w, t, rest);
    }
  }

  lemma MoreThanWs(rest: seq<byte>)
    requires Peek(SkipWs(rest)) != 0
    ensures !AllWs(rest)
  {
    hide SkipWs;
    var w := SkippedWs(rest);
    assert rest[|w|] == SkipWs(rest)[0];
  }

  /** The parser refuses a text exactly for what is wrong with it, and there is only one such thing. */
  lemma FailsIff(libc: Libc, s: seq<byte>, e: Status)
    requires StrtodIsLocal(libc) && 0 !in s
    ensures Parse(libc, s) == Bad(e) <==> FailsWith(libc, s, e)
  {
    hide Parse, BreaksOff, HasMore, BreakStatus;
    if Parse(libc, s).Bad? {
      FailureFound(libc, s);
    }
    if w, b :| BreaksOff(libc, s, w, b) && BreakStatus(b) == e {
      BreaksOffFails(libc, s, w, b);
    } else if FailsWith(libc, s, e) {
      var w, t, rest :| HasMore(libc, s, w, t, rest);
      HasMoreFails(libc, s, w, t, rest);
    }
  }

  /** No text fails in two ways, and none that fails is a text of the grammar. */
  lemma FailureIsUnique(libc: Libc, s: seq<byte>, e: Status)
    requires StrtodIsLocal(libc) && 0 !in s && FailsWith(libc, s, e)
    ensures forall e' :: FailsWith(libc, s, e') <==> e' == e
    ensures forall v :: !Derives(libc, s, v)
  {
    hide Parse, FailsWith;
    FailsIff(libc, s, e);
    forall e'
      ensures FailsWith(libc, s, e') <==> e' == e
    {
      FailsIff(libc, s, e');
    }
    forall v
      ensures !Derives(libc, s, v)
    {
      if w, t, w' :| IsDerivation(libc, s, w, t, w') && Denote(libc, t) == v {
        ParseAccepts(libc, s, w, t, w');
      }
    }
  }

  /** `{"a"}`. */
  lemma MissingColon(libc: Libc)
    ensures FailsWith(libc, [LBRACE, QUOTE, 0x61, QUOTE, RBRACE], MissColon)
  {
    var k := [Plain(0x61)];
    var entries := NoColon(k, [], [RBRACE]);
    var b := BadObj([], entries);
    assert WfChars(k) && CharsText(k) == [0x61, QUOTE];
    assert BadEntriesText(entries) == [QUOTE, 0x61, QUOTE, RBRACE];
    assert BreakText(b) == [LBRACE, QUOTE, 0x61, QUOTE, RBRACE];
    assert !Starts(BadEntriesText(entries), RBRACE);
    assert BreaksOff(libc, [LBRACE, QUOTE, 0x61, QUOTE, RBRACE], [], b);
  }
}
