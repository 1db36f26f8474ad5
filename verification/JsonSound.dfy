/** Whatever the parser accepts has a derivation, which each lemma here builds, denoting the parser's value. */
module JsonSound {
  import opened Bits
  import Utf8
  import opened Json
  import opened JsonParse
  import opened JsonGrammar
  import JsonComplete

  lemma {:induction false} SkippedWs(s: seq<byte>) returns (w: seq<byte>)
    ensures AllWs(w) && s == w + SkipWs(s) && !IsWs(Peek(SkipWs(s)))
    decreases |s|
  {
    if IsWs(Peek(s)) {
      w := SkippedWs(s[1..]);
      w := [s[0]] + w;
    } else {
      w := [];
    }
  }

  lemma {:induction false} SkippedDigits(s: seq<byte>) returns (ds: seq<byte>)
    ensures AllDigits(ds) && s == ds + SkipDigits(s) && !IsDigit(Peek(SkipDigits(s)))
    decreases |s|
  {
    if IsDigit(Peek(s)) {
      ds := SkippedDigits(s[1..]);
      ds := [s[0]] + ds;
    } else {
      ds := [];
    }
  }

  // ---------------------------------------------------------------- numbers

  lemma ScannedDigits(s: seq<byte>) returns (ds: seq<byte>)
    requires ScanDigits(s).Stop?
    ensures Digits(ds) && s == ds + ScanDigits(s).rest && ds[0] == s[0] && !IsDigit(Peek(ScanDigits(s).rest))
  {
    assert s == [s[0]] + s[1..];
    var tail := SkippedDigits(s[1..]);
    ds := [s[0]] + tail;
    assert ds[0] == s[0] && ds[1..] == tail;
  }

  lemma ScannedInt(s: seq<byte>) returns (ds: seq<byte>)
    requires ScanInt(s).Stop?
    ensures IsInt(ds) && s == ds + ScanInt(s).rest && (ds == [ZERO] || !IsDigit(Peek(ScanInt(s).rest)))
  {
    if Peek(s) == ZERO {
      ds := [ZERO];
    } else {
      ds := ScannedDigits(s);
    }
  }

  lemma ScannedFrac(s: seq<byte>) returns (f: seq<byte>)
    requires ScanFrac(s).Stop?
    ensures IsFrac(f) && s == f + ScanFrac(s).rest
    ensures if f == [] then ScanFrac(s).rest == s && Peek(s) != DOT else !IsDigit(Peek(ScanFrac(s).rest))
  {
    if Peek(s) == DOT {
      var ds := ScannedDigits(s[1..]);
      f := [DOT] + ds;
      assert f[1..] == ds;
    } else {
      f := [];
    }
  }

  lemma ScannedExp(s: seq<byte>) returns (x: seq<byte>)
    requires ScanExp(s).Stop?
    ensures IsExp(x) && s == x + ScanExp(s).rest
    ensures if x == [] then ScanExp(s).rest == s && !IsE(Peek(s)) else !IsDigit(Peek(ScanExp(s).rest))
  {
    if !IsE(Peek(s)) {
      x := [];
    } else if IsSign(Peek(s[1..])) {
      var ds := ScannedDigits(s[2..]);
      x := s[..2] + ds;
      assert x[2..] == ds;
    } else {
      var ds := ScannedDigits(s[1..]);
      x := s[..1] + ds;
      assert x[1..] == ds;
    }
  }

  lemma ScannedNumber(s: seq<byte>) returns (num: NumLex)
    requires ScanNumber(s).Stop?
    ensures WfNum(num) && s == NumText(num) + ScanNumber(s).rest && Stops(num, ScanNumber(s).rest)
  {
    hide ScanInt, ScanFrac, ScanExp, IsInt, IsFrac, IsExp;
    var minus := if Peek(s) == MINUS then [MINUS] else [];
    var s0 := if Peek(s) == MINUS then s[1..] else s;
    assert s == minus + s0;
    var ds := ScannedInt(s0);
    var s1 := ScanInt(s0).rest;
    var f := ScannedFrac(s1);
    var s2 := ScanFrac(s1).rest;
    var x := ScannedExp(s2);
    num := NumLex(minus, ds, f, x);
    Regroup(minus, ds, f, x, ScanExp(s2).rest);
  }

  lemma Regroup(a: seq<byte>, b: seq<byte>, c: seq<byte>, d: seq<byte>, rest: seq<byte>)
    ensures a + (b + (c + (d + rest))) == (a + (b + (c + d))) + rest
  {}

  // ---------------------------------------------------------------- strings

  lemma Hex4Digits(s: seq<byte>)
    requires Hex4(s).Good?
    ensures FourHex(s[..4]) && Hex4(s) == Good(HexNumber(s[..4]), s[4..])
  {
    assert Hex(s, 3).Good?;
    assert Hex(s, 2).Good?;
    assert Hex(s, 1).Good?;
    assert Hex(s, 0) == Good(0, s);
    assert Hex(s, 1) == Good(HexValue(s[0]), s[1..]);
    assert Hex(s, 2) == Good(16 * HexValue(s[0]) + HexValue(s[1]), s[2..]);
    assert Hex(s, 3) == Good(16 * (16 * HexValue(s[0]) + HexValue(s[1])) + HexValue(s[2]), s[3..]);
  }

  lemma ParsedUnicode(s: seq<byte>) returns (c: CharT)
    requires ParseUnicode(s).Good?
    ensures WfChar(c) && (c.Unit? || c.Pair?)
    ensures [BACKSLASH, 0x75] + s == CharText(c) + ParseUnicode(s).rest
    ensures CharValue(c) == Utf8.Encode(ParseUnicode(s).value)
  {
    hide Hex4, HexNumber, HexValue, Utf8.Combine, Utf8.Encode, Utf8.Distributed;
    Hex4Digits(s);
    var h, s1 := s[..4], s[4..];
    assert s == h + s1;
    if Utf8.IsHigh(HexNumber(h)) {
      var s2 := s1[2..];
      assert s1 == [BACKSLASH, 0x75] + s2;
      Hex4Digits(s2);
      var l := s2[..4];
      assert s2 == l + s2[4..];
      c := Pair(h, l);
      Utf8.CombineIsSum(HexNumber(h), HexNumber(l));
    } else {
      c := Unit(h);
    }
  }

  lemma ParsedEscape(s: seq<byte>) returns (c: CharT)
    requires ParseEscape(s).Good?
    ensures WfChar(c) && !c.Plain?
    ensures [BACKSLASH] + s == CharText(c) + ParseEscape(s).rest && CharValue(c) == ParseEscape(s).value
  {
    hide ParseUnicode, Utf8.Encode, Utf8.Distributed, HexNumber, Unescaped;
    if Peek(s) == 0x75 {
      c := ParsedUnicode(s[1..]);
      assert [BACKSLASH] + s == [BACKSLASH, 0x75] + s[1..];
    } else {
      c := Escape(s[0]);
      JsonComplete.EscapeTable(s[0]);
    }
  }

  lemma ParsedChar(s: seq<byte>, read: seq<byte>) returns (c: CharT, tail: seq<byte>)
    requires (Peek(s) == BACKSLASH && ParseEscape(s[1..]).Good?) || (Peek(s) >= 0x20 && Peek(s) !in {QUOTE, BACKSLASH})
    ensures WfChar(c) && s == CharText(c) + tail && |tail| < |s|
    ensures ParseChars(s, read) == ParseChars(tail, read + CharValue(c))
  {
    hide ParseEscape;
    if s[0] == BACKSLASH {
      c := ParsedEscape(s[1..]);
      tail := ParseEscape(s[1..]).rest;
      assert s == [BACKSLASH] + s[1..];
    } else {
      c, tail := Plain(s[0]), s[1..];
    }
  }

  lemma {:induction false} ParsedChars(s: seq<byte>, read: seq<byte>) returns (cs: seq<CharT>)
    requires ParseChars(s, read).Good?
    ensures WfChars(cs) && s == CharsText(cs) + ParseChars(s, read).rest
    ensures ParseChars(s, read).value == read + CharsValue(cs)
    decreases |s|
  {
    hide ParseEscape, WfChar, CharText, CharValue;
    if s[0] == QUOTE {
      cs := [];
      assert read + CharsValue(cs) == read;
    } else {
      var c, tail := ParsedChar(s, read);
      var cs' := ParsedChars(tail, read + CharValue(c));
      cs := [c] + cs';
      Prepended(c, cs', read);
    }
  }

  lemma Prepended(c: CharT, cs: seq<CharT>, read: seq<byte>)
    requires WfChar(c) && WfChars(cs)
    ensures WfChars([c] + cs)
    ensures CharsText([c] + cs) == CharText(c) + CharsText(cs)
    ensures read + CharsValue([c] + cs) == (read + CharValue(c)) + CharsValue(cs)
  {
    hide WfChar, CharText, CharValue;
    assert ([c] + cs)[1..] == cs;
  }

  lemma ParsedString(s: seq<byte>) returns (cs: seq<CharT>)
    requires Peek(s) == QUOTE && ParseString(s).Good?
    ensures WfChars(cs) && s == ([QUOTE] + CharsText(cs)) + ParseString(s).rest && ParseString(s).value == CharsValue(cs)
  {
    hide ParseChars;
    cs := ParsedChars(s[1..], []);
    assert [] + CharsValue(cs) == CharsValue(cs);
  }

  // ---------------------------------------------------------------- values

  lemma {:induction false} ParsedValue(libc: Libc, s: seq<byte>) returns (t: Tree)
    requires StrtodIsLocal(libc) && ParseValue(libc, s).Good?
    requires Delimited(ParseValue(libc, s).rest) || !ParseValue(libc, s).value.Number?
    ensures Wf(libc, t) && s == Text(t) + ParseValue(libc, s).rest && Denote(libc, t) == ParseValue(libc, s).value
    decreases |s|, 1
  {
    if Peek(s) == LBRACKET {
      t := ParsedArray(libc, s);
    } else if Peek(s) == LBRACE {
      t := ParsedObject(libc, s);
    } else {
      t := ParsedLeaf(libc, s);
    }
  }

  lemma ParsedLeaf(libc: Libc, s: seq<byte>) returns (t: Tree)
    requires StrtodIsLocal(libc) && ParseValue(libc, s).Good?
    requires Delimited(ParseValue(libc, s).rest) || !ParseValue(libc, s).value.Number?
    requires Peek(s) != LBRACKET && Peek(s) != LBRACE
    ensures Wf(libc, t) && s == Text(t) + ParseValue(libc, s).rest && Denote(libc, t) == ParseValue(libc, s).value
  {
    hide ScanNumber, ParseString, CharsText, CharsValue, WfNum, WfChars, ParseElements, ParseMembers, NumText;
    if Peek(s) == QUOTE {
      var cs := ParsedString(s);
      t := StrT(cs);
    } else if Peek(s) == 0x74 {
      t := TrueT;
    } else if Peek(s) == 0x66 {
      t := FalseT;
    } else if Peek(s) == 0x6E {
      t := NullT;
    } else {
      var num := ScannedNumber(s);
      t := NumT(num);
    }
  }

  lemma {:induction false} ParsedArray(libc: Libc, s: seq<byte>) returns (t: Tree)
    requires StrtodIsLocal(libc) && ParseValue(libc, s).Good? && Peek(s) == LBRACKET
    ensures Wf(libc, t) && s == Text(t) + ParseValue(libc, s).rest && Denote(libc, t) == ParseValue(libc, s).value
    decreases |s|, 0
  {
    hide ParseElements, ParseMembers, ItemsText, WfItems, DenoteItems, ParseNumber, ParseString, SkipWs, AllWs;
    var w := SkippedWs(s[1..]);
    var s1 := SkipWs(s[1..]);
    assert s == [LBRACKET] + (w + s1);
    if Peek(s1) == RBRACKET {
      t := EmptyArrT(w);
      assert s1 == [RBRACKET] + s1[1..];
    } else {
      var items := ParsedElements(libc, s1, []);
      t := ArrT(w, items);
      assert [] + DenoteItems(libc, items) == DenoteItems(libc, items);
    }
  }

  lemma {:induction false} ParsedObject(libc: Libc, s: seq<byte>) returns (t: Tree)
    requires StrtodIsLocal(libc) && ParseValue(libc, s).Good? && Peek(s) == LBRACE
    ensures Wf(libc, t) && s == Text(t) + ParseValue(libc, s).rest && Denote(libc, t) == ParseValue(libc, s).value
    decreases |s|, 0
  {
    hide ParseElements, ParseMembers, EntriesText, WfEntries, DenoteEntries, ParseNumber, ParseString, SkipWs, AllWs;
    var w := SkippedWs(s[1..]);
    var s1 := SkipWs(s[1..]);
    assert s == [LBRACE] + (w + s1);
    if Peek(s1) == RBRACE {
      t := EmptyObjT(w);
      assert s1 == [RBRACE] + s1[1..];
    } else {
      var entries := ParsedMembers(libc, s1, []);
      t := ObjT(w, entries);
      assert [] + DenoteEntries(libc, entries) == DenoteEntries(libc, entries);
    }
  }

  lemma {:induction false} ParsedElements(libc: Libc, s: seq<byte>, read: seq<Value>) returns (items: Items)
    requires StrtodIsLocal(libc) && ParseElements(libc, s, read).Good?
    ensures WfItems(libc, items) && s == ItemsText(items) + ParseElements(libc, s, read).rest
    ensures ParseElements(libc, s, read).value == Array(read + DenoteItems(libc, items))
    decreases |s|, 2
  {
    hide ParseValue, Text, Denote, Wf, SkipWs, AllWs;
    var s1 := ParseValue(libc, s).rest;
    var w := SkippedWs(s1);
    var s2 := SkipWs(s1);
    JsonComplete.WsThenDelimiter(w, s2);
    var t := ParsedValue(libc, s);
    if Peek(s2) == COMMA {
      var w' := SkippedWs(s2[1..]);
      var s3 := SkipWs(s2[1..]);
      var read' := read + [ParseValue(libc, s).value];
      var tail := ParsedElements(libc, s3, read');
      items := MoreItems(t, w, w', tail);
      assert read' + DenoteItems(libc, tail) == read + DenoteItems(libc, items);
      assert s2 == [COMMA] + (w' + s3);
      RegroupMore(Text(t), w, w', ItemsText(tail), ParseElements(libc, s, read).rest);
    } else {
      items := LastItem(t, w);
      assert s2 == [RBRACKET] + s2[1..];
      RegroupLast(Text(t), w, RBRACKET, s2[1..]);
    }
  }

  lemma RegroupMore(t: seq<byte>, w: seq<byte>, w': seq<byte>, tail: seq<byte>, rest: seq<byte>)
    ensures t + (w + ([COMMA] + (w' + (tail + rest)))) == (t + (w + ([COMMA] + (w' + tail)))) + rest
  {}

  lemma RegroupLast(t: seq<byte>, w: seq<byte>, close: byte, rest: seq<byte>)
    ensures t + (w + ([close] + rest)) == (t + (w + [close])) + rest
  {}

  lemma ParsedKey(s: seq<byte>) returns (k: seq<CharT>, w: seq<byte>, w': seq<byte>)
    requires ParseKey(s).Good?
    ensures WfChars(k) && AllWs(w) && AllWs(w') && !IsWs(Peek(ParseKey(s).rest))
    ensures ParseKey(s).value == CharsValue(k)
    ensures s == ([QUOTE] + CharsText(k)) + (w + ([COLON] + (w' + ParseKey(s).rest)))
  {
    hide ParseString, CharsText, CharsValue, WfChars, SkipWs, AllWs;
    k := ParsedString(s);
    var s1 := ParseString(s).rest;
    w := SkippedWs(s1);
    var s2 := SkipWs(s1);
    assert s2 == [COLON] + s2[1..];
    w' := SkippedWs(s2[1..]);
  }

  lemma {:induction false} ParsedMember(libc: Libc, s: seq<byte>) returns (e: Entry)
    requires StrtodIsLocal(libc) && ParseMember(libc, s).Good? && Delimited(ParseMember(libc, s).rest)
    ensures WfEntry(libc, e) && s == EntryText(e) + ParseMember(libc, s).rest
    ensures ParseMember(libc, s).value == DenoteEntry(libc, e)
    decreases |s|, 2
  {
    hide ParseValue, ParseKey, CharsText, CharsValue, WfChars, Text, Denote, Wf, AllWs, Delimited;
    var k, w, w' := ParsedKey(s);
    var t := ParsedValue(libc, ParseKey(s).rest);
    e := Entry(k, w, w', t);
    var rest := ParseMember(libc, s).rest;
    RegroupEntry([QUOTE] + CharsText(k), w, w', Text(t), rest);
  }

  lemma RegroupEntry(k: seq<byte>, w: seq<byte>, w': seq<byte>, t: seq<byte>, rest: seq<byte>)
    ensures k + (w + ([COLON] + (w' + (t + rest)))) == (k + (w + ([COLON] + (w' + t)))) + rest
  {}

  lemma {:induction false} ParsedMembers(libc: Libc, s: seq<byte>, read: seq<Member>) returns (entries: Entries)
    requires StrtodIsLocal(libc) && ParseMembers(libc, s, read).Good?
    ensures WfEntries(libc, entries) && s == EntriesText(entries) + ParseMembers(libc, s, read).rest
    ensures ParseMembers(libc, s, read).value == Object(read + DenoteEntries(libc, entries))
    decreases |s|, 3
  {
    hide ParseMember, EntryText, DenoteEntry, WfEntry, SkipWs, AllWs;
    var s1 := ParseMember(libc, s).rest;
    var w := SkippedWs(s1);
    var s2 := SkipWs(s1);
    JsonComplete.WsThenDelimiter(w, s2);
    var e := ParsedMember(libc, s);
    if Peek(s2) == COMMA {
      var w' := SkippedWs(s2[1..]);
      var s3 := SkipWs(s2[1..]);
      var read' := read + [ParseMember(libc, s).value];
      var tail := ParsedMembers(libc, s3, read');
      entries := MoreEntries(e, w, w', tail);
      assert read' + DenoteEntries(libc, tail) == read + DenoteEntries(libc, entries);
      assert s2 == [COMMA] + (w' + s3);
      RegroupMore(EntryText(e), w, w', EntriesText(tail), ParseMembers(libc, s, read).rest);
    } else {
      entries := LastEntry(e, w);
      assert s2 == [RBRACE] + s2[1..];
      RegroupLast(EntryText(e), w, RBRACE, s2[1..]);
    }
  }

  lemma HeadOfTail(text: seq<byte>, tail: seq<byte>)
    ensures tail != [] ==> tail[0] in text + tail
  {
    if tail != [] { assert (text + tail)[|text|] == tail[0]; }
  }

  /** An accepted text is a text of the grammar, and the value is what a derivation of it denotes. */
  lemma ParsedText(libc: Libc, s: seq<byte>)
    requires StrtodIsLocal(libc) && 0 !in s && Parse(libc, s).Good?
    ensures Derives(libc, s, Parse(libc, s).value)
  {
    hide ParseValue, Text, Denote, Wf;
    var w := SkippedWs(s);
    var s0 := SkipWs(s);
    var s1 := ParseValue(libc, s0).rest;
    var w' := SkippedWs(s1);
    var s2 := SkipWs(s1);
    JsonComplete.WsThenDelimiter(w', s2);
    var t := ParsedValue(libc, s0);
    var text := w + (Text(t) + w');
    assert s == text + s2;
    HeadOfTail(text, s2);
    assert s == w + (Text(t) + w');
    assert IsDerivation(libc, s, w, t, w');
  }
}
