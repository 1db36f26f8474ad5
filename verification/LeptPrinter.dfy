/** The printer on its context: the string printer in its fast and its simple form, values, and the whole text. */
module LeptPrinter {
  import opened Bits
  import opened Json
  import opened JsonPrint
  import opened LeptHeap
  import opened LeptContext

  /** `onto` followed by the slots of `a` and then of `b`. */
  lemma Stacked(onto: seq<Slot>, a: seq<byte>, b: seq<byte>)
    ensures (onto + Raws(a)) + Raws(b) == onto + Raws(a + b)
  {}

  lemma RawsOf(b: byte)
    ensures Raws([b]) == [Raw(b)]
  {}

  // ---------------------------------------------------------------- the simple form

  /** The opening quote and the first `i` characters. */
  function Opened(s: seq<byte>, i: nat): (r: seq<byte>)
    requires i <= |s|
    ensures 1 <= |r| <= 1 + 6 * i
  {
    if i == 0 then [QUOTE] else Opened(s, i - 1) + EscapeByte(s[i - 1])
  }

  lemma {:induction false} OpenedRest(s: seq<byte>, i: nat)
    requires i <= |s|
    ensures Opened(s, i) + EscapeFrom(s, i) == [QUOTE] + EscapeFrom(s, 0)
  {
    hide EscapeByte;
    if i > 0 {
      OpenedRest(s, i - 1);
      assert EscapeFrom(s, i - 1) == EscapeByte(s[i - 1]) + EscapeFrom(s, i);
    }
  }

  lemma OpenedAndClosed(s: seq<byte>)
    ensures Opened(s, |s|) + [QUOTE] == PrintString(s)
  {
    hide EscapeByte, Opened;
    OpenedRest(s, |s|);
    assert EscapeFrom(s, |s|) == [];
    assert Opened(s, |s|) + [] == Opened(s, |s|);
  }

  /** Every piece is pushed on its own. */
  method StringifyStringSimple(c: Context, s: seq<byte>)
    requires c.Valid()
    modifies c`size, c`stack, c`top, c.stack
    ensures c.Valid() && (c.stack == old(c.stack) || fresh(c.stack))
    ensures c.Used() == old(c.Used()) + Raws(PrintString(s))
  {
    hide EscapeByte, Raws, PrintString;
    ghost var base := c.Used();
    RawsOf(QUOTE);
    c.PutByte(QUOTE);
    var i := 0;
    while i < |s|
      invariant 0 <= i <= |s| && c.Valid() && (c.stack == old(c.stack) || fresh(c.stack))
      invariant c.Used() == base + Raws(Opened(s, i))
    {
      Stacked(base, Opened(s, i), EscapeByte(s[i]));
      PutEscape(c, s[i]);
      i := i + 1;
    }
    Stacked(base, Opened(s, i), [QUOTE]);
    OpenedAndClosed(s);
    c.PutByte(QUOTE);
  }

  method PutEscape(c: Context, ch: byte)
    requires c.Valid()
    modifies c`size, c`stack, c`top, c.stack
    ensures c.Valid() && (c.stack == old(c.stack) || fresh(c.stack))
    ensures c.Used() == old(c.Used()) + Raws(EscapeByte(ch))
  {
    if ch == QUOTE { c.PutBytes([BACKSLASH, QUOTE]); }
    else if ch == BACKSLASH { c.PutBytes([BACKSLASH, BACKSLASH]); }
    else if ch == 0x08 { c.PutBytes([BACKSLASH, 0x62]); }
    else if ch == 0x0C { c.PutBytes([BACKSLASH, 0x66]); }
    else if ch == 0x0A { c.PutBytes([BACKSLASH, 0x6E]); }
    else if ch == 0x0D { c.PutBytes([BACKSLASH, 0x72]); }
    else if ch == 0x09 { c.PutBytes([BACKSLASH, 0x74]); }
    else if ch < 0x20 { UpperHexOf4(ch); c.PutBytes([BACKSLASH, 0x75] + UpperHex(ch, 4)); }
    else { c.PutByte(ch); }
  }

  /** `%0nX`. */
  function UpperHex(x: nat, n: nat): (r: seq<byte>)
    ensures |r| == n
  {
    if n == 0 then [] else UpperHex(x / 16, n - 1) + [HEX_DIGITS[x % 16]]
  }

  lemma UpperHexOf4(ch: byte)
    ensures UpperHex(ch, 4) == [ZERO, ZERO, HEX_DIGITS[ch / 16], HEX_DIGITS[ch % 16]]
  {
    assert UpperHex(ch / 16, 3) == UpperHex(0, 2) + [HEX_DIGITS[ch / 16]];
    assert UpperHex(0, 2) == UpperHex(0, 1) + [ZERO];
    assert UpperHex(0, 1) == [ZERO];
  }

  // ---------------------------------------------------------------- the fast form

  /** `*p++ = b`, inside the reserved bytes. */
  method Write(c: Context, p: nat, b: byte) returns (p': nat)
    requires c.Valid() && p < c.top
    modifies c.stack
    ensures p' == p + 1 && c.stack[..p'] == old(c.stack[..p]) + [Raw(b)]
  {
    c.stack[p] := Raw(b);
    p' := p + 1;
  }

  method WriteEscape(c: Context, p: nat, ch: byte) returns (p': nat)
    requires c.Valid() && p + 6 <= c.top
    modifies c.stack
    ensures p' == p + |EscapeByte(ch)| && c.stack[..p'] == old(c.stack[..p]) + Raws(EscapeByte(ch))
  {
    if ch == QUOTE { p' := Write(c, p, BACKSLASH); p' := Write(c, p', QUOTE); }
    else if ch == BACKSLASH { p' := Write(c, p, BACKSLASH); p' := Write(c, p', BACKSLASH); }
    else if ch == 0x08 { p' := Write(c, p, BACKSLASH); p' := Write(c, p', 0x62); }
    else if ch == 0x0C { p' := Write(c, p, BACKSLASH); p' := Write(c, p', 0x66); }
    else if ch == 0x0A { p' := Write(c, p, BACKSLASH); p' := Write(c, p', 0x6E); }
    else if ch == 0x0D { p' := Write(c, p, BACKSLASH); p' := Write(c, p', 0x72); }
    else if ch == 0x09 { p' := Write(c, p, BACKSLASH); p' := Write(c, p', 0x74); }
    else if ch < 0x20 { p' := WriteUnicode(c, p, ch); }
    else { p' := Write(c, p, ch); }
  }

  method WriteUnicode(c: Context, p: nat, ch: byte) returns (p': nat)
    requires c.Valid() && p + 6 <= c.top && ch < 0x20
    modifies c.stack
    ensures p' == p + 6
    ensures c.stack[..p'] == old(c.stack[..p])
      + Raws([BACKSLASH, 0x75, ZERO, ZERO, HEX_DIGITS[ch / 16], HEX_DIGITS[ch % 16]])
  {
    NibblesOf(ch);
    p' := Write(c, p, BACKSLASH);
    p' := Write(c, p', 0x75);
    p' := Write(c, p', ZERO);
    p' := Write(c, p', ZERO);
    p' := Write(c, p', HEX_DIGITS[Shr(ch, 4)]);
    p' := Write(c, p', HEX_DIGITS[And(ch, 15)]);
  }

  lemma NibblesOf(ch: byte)
    ensures Shr(ch, 4) == ch / 16 && And(ch, 15) == ch % 16
  {
    assert Pow2(4) == 16;
    ShrDivides(ch, 4);
    AndMask(ch, 4);
  }

  /** Six bytes per character and the two quotes are reserved; what is left over is given back. */
  method StringifyString(c: Context, s: seq<byte>)
    requires c.Valid()
    modifies c`size, c`stack, c`top, c.stack
    ensures c.Valid() && (c.stack == old(c.stack) || fresh(c.stack))
    ensures c.Used() == old(c.Used()) + Raws(PrintString(s))
  {
    hide EscapeByte, Raws, PrintString;
    ghost var base := c.Used();
    var size := |s| * 6 + 2;
    var head := c.Push(size);
    RawsOf(QUOTE);
    var p := Write(c, head, QUOTE);
    var i := 0;
    while i < |s|
      invariant 0 <= i <= |s| && c.Valid() && c.top == head + size
      invariant c.stack == old(c.stack) || fresh(c.stack)
      invariant p == head + |Opened(s, i)|
      invariant c.stack[..p] == base + Raws(Opened(s, i))
    {
      Stacked(base, Opened(s, i), EscapeByte(s[i]));
      p := WriteEscape(c, p, s[i]);
      i := i + 1;
    }
    Stacked(base, Opened(s, i), [QUOTE]);
    OpenedAndClosed(s);
    p := Write(c, p, QUOTE);
    c.top := c.top - (size - (p - head));
  }

  // ---------------------------------------------------------------- values

  /** The text of `libc.fmt(n)` and its NUL fit the 32 bytes `sprintf` is given. */
  method StringifyNumber(c: Context, libc: Libc, n: Double)
    requires c.Valid() && |libc.fmt(n)| <= 31
    modifies c`size, c`stack, c`top, c.stack
    ensures c.Valid() && (c.stack == old(c.stack) || fresh(c.stack))
    ensures c.Used() == old(c.Used()) + Raws(libc.fmt(n))
  {
    hide Raws;
    var text := libc.fmt(n);
    var buffer := text + [0];
    var at := c.Push(32);
    forall i | 0 <= i < |buffer| {
      c.stack[at + i] := Raw(buffer[i]);
    }
    c.top := c.top - (32 - (|buffer| - 1));
    Written(c.stack[..], old(c.Used()), text);
    assert c.stack[..c.top] == c.stack[..][..at + |text|];
  }

  /** The bytes at the end of a stretch of the stack. */
  lemma Written(stack: seq<Slot>, base: seq<Slot>, text: seq<byte>)
    requires |base| + |text| <= |stack| && stack[..|base|] == base
    requires forall i :: 0 <= i < |text| ==> stack[|base| + i] == Raw(text[i])
    ensures stack[..|base| + |text|] == base + Raws(text)
  {
    var r := stack[..|base| + |text|];
    forall k | 0 <= k < |r|
      ensures r[k] == (base + Raws(text))[k]
    {
      if k < |base| { assert r[k] == stack[..|base|][k]; } else { assert r[k] == stack[|base| + (k - |base|)]; }
    }
  }

  ghost predicate NumbersFit(libc: Libc, v: Value)
    decreases v
  {
    match v
    case Number(n) => |libc.fmt(n)| <= 31
    case Array(es) => forall i :: 0 <= i < |es| ==> NumbersFit(libc, es[i])
    case Object(ms) => forall i :: 0 <= i < |ms| ==> NumbersFit(libc, ms[i].v)
    case _ => true
  }

  lemma {:induction false} NumbersOkFit(libc: Libc, v: Value)
    requires NumbersOk(libc, v)
    ensures NumbersFit(libc, v)
    decreases v
  {
    match v
    case Array(es) => forall i | 0 <= i < |es| { NumbersOkFit(libc, es[i]); }
    case Object(ms) => forall i | 0 <= i < |ms| { NumbersOkFit(libc, ms[i].v); }
    case _ =>
  }

  method StringifyValue(c: Context, libc: Libc, v: Value)
    requires c.Valid() && NumbersFit(libc, v)
    modifies c`size, c`stack, c`top, c.stack
    ensures c.Valid() && (c.stack == old(c.stack) || fresh(c.stack))
    ensures c.Used() == old(c.Used()) + Raws(Print(libc, v))
    decreases v, 1
  {
    match v {
      case Null => c.PutBytes(NULL_TEXT);
      case False => c.PutBytes(FALSE_TEXT);
      case True => c.PutBytes(TRUE_TEXT);
      case Number(n) => StringifyNumber(c, libc, n);
      case String(s) => StringifyString(c, s);
      case Array(es) => StringifyArray(c, libc, es);
      case Object(ms) => StringifyObject(c, libc, ms);
    }
  }

  /** The opening bracket and the first `i` elements. */
  function ElementsOpened(libc: Libc, es: seq<Value>, i: nat): seq<byte>
    requires i <= |es|
  {
    if i == 0 then [LBRACKET]
    else ElementsOpened(libc, es, i - 1) + ((if i > 1 then [COMMA] else []) + Print(libc, es[i - 1]))
  }

  lemma {:induction false} ElementsOpenedRest(libc: Libc, es: seq<Value>, i: nat)
    requires i <= |es|
    ensures ElementsOpened(libc, es, i) + PrintElements(libc, es, i) == [LBRACKET] + PrintElements(libc, es, 0)
  {
    hide Print;
    if i > 0 {
      ElementsOpenedRest(libc, es, i - 1);
      var text := (if i > 1 then [COMMA] else []) + Print(libc, es[i - 1]);
      assert PrintElements(libc, es, i - 1) == text + PrintElements(libc, es, i);
    }
  }

  method StringifyArray(c: Context, libc: Libc, es: seq<Value>)
    requires c.Valid() && forall i :: 0 <= i < |es| ==> NumbersFit(libc, es[i])
    modifies c`size, c`stack, c`top, c.stack
    ensures c.Valid() && (c.stack == old(c.stack) || fresh(c.stack))
    ensures c.Used() == old(c.Used()) + Raws([LBRACKET] + PrintElements(libc, es, 0) + [RBRACKET])
    decreases es, 1
  {
    hide Print, PrintElements, Raws;
    ghost var base := c.Used();
    RawsOf(LBRACKET);
    c.PutByte(LBRACKET);
    var i := 0;
    while i < |es|
      invariant 0 <= i <= |es| && c.Valid() && (c.stack == old(c.stack) || fresh(c.stack))
      invariant c.Used() == base + Raws(ElementsOpened(libc, es, i))
    {
      ghost var before, text := ElementsOpened(libc, es, i), Print(libc, es[i]);
      if i > 0 {
        c.PutByte(COMMA);
        RawsOf(COMMA);
        Stacked(base, before, [COMMA]);
        assert (before + [COMMA]) + text == ElementsOpened(libc, es, i + 1);
        Stacked(base, before + [COMMA], text);
      } else {
        assert before + text == ElementsOpened(libc, es, i + 1);
        Stacked(base, before, text);
      }
      StringifyValue(c, libc, es[i]);
      i := i + 1;
    }
    ElementsOpenedRest(libc, es, i);
    PrintElementsEnd(libc, es);
    assert ElementsOpened(libc, es, i) + [] == ElementsOpened(libc, es, i);
    RawsOf(RBRACKET);
    Stacked(base, ElementsOpened(libc, es, i), [RBRACKET]);
    c.PutByte(RBRACKET);
  }

  lemma PrintElementsEnd(libc: Libc, es: seq<Value>)
    ensures PrintElements(libc, es, |es|) == []
  {}

  /** The opening bracket and the first `i` members. */
  function MembersOpened(libc: Libc, ms: seq<Member>, i: nat): seq<byte>
    requires i <= |ms|
  {
    if i == 0 then [LBRACE]
    else MembersOpened(libc, ms, i - 1) + ((if i > 1 then [COMMA] else []) + PrintMember(libc, ms[i - 1]))
  }

  lemma {:induction false} MembersOpenedRest(libc: Libc, ms: seq<Member>, i: nat)
    requires i <= |ms|
    ensures MembersOpened(libc, ms, i) + PrintMembers(libc, ms, i) == [LBRACE] + PrintMembers(libc, ms, 0)
  {
    hide PrintMember;
    if i > 0 {
      MembersOpenedRest(libc, ms, i - 1);
      var text := (if i > 1 then [COMMA] else []) + PrintMember(libc, ms[i - 1]);
      assert PrintMembers(libc, ms, i - 1) == text + PrintMembers(libc, ms, i);
    }
  }

  method StringifyObject(c: Context, libc: Libc, ms: seq<Member>)
    requires c.Valid() && forall i :: 0 <= i < |ms| ==> NumbersFit(libc, ms[i].v)
    modifies c`size, c`stack, c`top, c.stack
    ensures c.Valid() && (c.stack == old(c.stack) || fresh(c.stack))
    ensures c.Used() == old(c.Used()) + Raws([LBRACE] + PrintMembers(libc, ms, 0) + [RBRACE])
    decreases ms, 1
  {
    hide PrintMember, PrintMembers, Raws;
    ghost var base := c.Used();
    RawsOf(LBRACE);
    c.PutByte(LBRACE);
    var i := 0;
    while i < |ms|
      invariant 0 <= i <= |ms| && c.Valid() && (c.stack == old(c.stack) || fresh(c.stack))
      invariant c.Used() == base + Raws(MembersOpened(libc, ms, i))
    {
      ghost var before, text := MembersOpened(libc, ms, i), PrintMember(libc, ms[i]);
      if i > 0 {
        c.PutByte(COMMA);
        RawsOf(COMMA);
        Stacked(base, before, [COMMA]);
        assert (before + [COMMA]) + text == MembersOpened(libc, ms, i + 1);
        Stacked(base, before + [COMMA], text);
      } else {
        assert before + text == MembersOpened(libc, ms, i + 1);
        Stacked(base, before, text);
      }
      StringifyMember(c, libc, ms[i]);
      i := i + 1;
    }
    MembersOpenedRest(libc, ms, i);
    PrintMembersEnd(libc, ms);
    assert MembersOpened(libc, ms, i) + [] == MembersOpened(libc, ms, i);
    RawsOf(RBRACE);
    Stacked(base, MembersOpened(libc, ms, i), [RBRACE]);
    c.PutByte(RBRACE);
  }

  lemma PrintMembersEnd(libc: Libc, ms: seq<Member>)
    ensures PrintMembers(libc, ms, |ms|) == []
  {}

  method StringifyMember(c: Context, libc: Libc, m: Member)
    requires c.Valid() && NumbersFit(libc, m.v)
    modifies c`size, c`stack, c`top, c.stack
    ensures c.Valid() && (c.stack == old(c.stack) || fresh(c.stack))
    ensures c.Used() == old(c.Used()) + Raws(PrintMember(libc, m))
    decreases m, 1
  {
    hide Print, PrintString, Raws;
    ghost var base := c.Used();
    StringifyString(c, m.k);
    c.PutByte(COLON);
    RawsOf(COLON);
    Stacked(base, PrintString(m.k), [COLON]);
    StringifyValue(c, libc, m.v);
    Stacked(base, PrintString(m.k) + [COLON], Print(libc, m.v));
  }

  /** `lept_stringify`: the text, closed by a NUL, and its length without it. */
  method Stringify(libc: Libc, v: Value) returns (text: seq<byte>, length: nat)
    requires NumbersFit(libc, v)
    ensures text == Print(libc, v) + [0] && length == |Print(libc, v)|
  {
    hide Print;
    var heap := new Heap();
    var c := new Context([], heap, INIT_SIZE);
    StringifyValue(c, libc, v);
    length := c.top;
    c.PutByte(0);
    Stacked([], Print(libc, v), [0]);
    assert c.Used() == Raws(Print(libc, v) + [0]);
    text := c.CopyBytes(0, Print(libc, v) + [0], c.top);
  }
}
