/**
 The parser on its context, routine by routine. Each leaves the stack below its entry top as it
 was, on success and on every error, and returns what the parser functions say; the blocks it
 allocated are those of the tree it returns, and none after an error.
 */
module LeptParser {
  import opened Bits
  import Utf8
  import opened Json
  import opened JsonParse
  import opened LeptHeap
  import opened LeptContext

  /** The status and the tree are those of `p`, and the live blocks grew by the tree's. */
  ghost predicate Delivers(p: Parsed<Value>, ret: Status, v: Node, before: multiset<Ptr>, after: multiset<Ptr>)
  {
    match p
    case Good(value, _) => ret == Ok && ValueOf(v) == value && Rooted(v) && after == before + Blocks(v)
    case Bad(e) => ret == e != Ok && v == NullN && after == before
  }

  method ParseWhitespace(c: Context)
    requires c.ValidText()
    modifies c`json
    ensures c.ValidText() && c.Rest() == SkipWs(old(c.Rest()))
  {
    var p := c.json;
    while IsWs(c.text[p])
      invariant c.json <= p < |c.text|
      invariant SkipWs(c.RestAt(p)) == SkipWs(c.Rest())
      decreases |c.text| - p
    {
      assert c.RestAt(p)[0] == c.text[p] && c.RestAt(p)[1..] == c.RestAt(p + 1);
      p := p + 1;
    }
    c.json := p;
  }

  method ParseLiteralText(c: Context, v: Node, literal: seq<byte>, w: Node) returns (ret: Status, v': Node)
    requires c.ValidText() && |literal| > 0 && 0 !in literal && c.text[c.json] == literal[0]
    modifies c`json
    ensures c.ValidText()
    ensures match ParseLiteral(old(c.Rest()), literal, ValueOf(w))
      case Good(_, rest) => ret == Ok && v' == w && c.Rest() == rest
      case Bad(e) => ret == e != Ok && v' == v
  {
    c.json := c.json + 1;
    var i := 0;
    while i + 1 < |literal|
      invariant 0 <= i < |literal| && c.json + i < |c.text|
      invariant literal[..i + 1] == old(c.Rest())[..i + 1] && i + 1 <= |old(c.Rest())|
    {
      if c.text[c.json + i] != literal[i + 1] {
        assert !(literal <= old(c.Rest()));
        return InvalidValue, v;
      }
      i := i + 1;
    }
    c.json := c.json + i;
    return Ok, w;
  }

  /** `for (p++; ISDIGIT(*p); p++)`, from the character after the first digit. */
  method ScanDigitsAt(c: Context, p: nat) returns (p': nat)
    requires p < |c.text| && c.ValidText()
    ensures p <= p' < |c.text| && c.RestAt(p') == SkipDigits(c.RestAt(p))
  {
    p' := p;
    while IsDigit(c.text[p'])
      invariant p <= p' < |c.text|
      invariant SkipDigits(c.RestAt(p')) == SkipDigits(c.RestAt(p))
      decreases |c.text| - p'
    {
      assert c.RestAt(p')[0] == c.text[p'] && c.RestAt(p')[1..] == c.RestAt(p' + 1);
      p' := p' + 1;
    }
  }

  lemma Reads(c: Context, p: nat)
    requires c.ValidText() && p < |c.text|
    ensures Peek(c.RestAt(p)) == c.text[p]
    ensures c.text[p] != 0 ==> p + 1 < |c.text| && c.RestAt(p) != [] && c.RestAt(p)[1..] == c.RestAt(p + 1)
  {}

  method ScanIntAt(c: Context, p: nat) returns (ok: bool, p': nat)
    requires p < |c.text| && c.ValidText()
    ensures p' < |c.text| && ScanInt(c.RestAt(p)) == if ok then Stop(c.RestAt(p')) else Reject
  {
    Reads(c, p);
    if c.text[p] == ZERO { return true, p + 1; }
    if !IsDigit1To9(c.text[p]) { return false, p; }
    p' := ScanDigitsAt(c, p + 1);
    ok := true;
  }

  method ScanFracAt(c: Context, p: nat) returns (ok: bool, p': nat)
    requires p < |c.text| && c.ValidText()
    ensures p' < |c.text| && ScanFrac(c.RestAt(p)) == if ok then Stop(c.RestAt(p')) else Reject
  {
    Reads(c, p);
    if c.text[p] != DOT { return true, p; }
    Reads(c, p + 1);
    if !IsDigit(c.text[p + 1]) { return false, p; }
    p' := ScanDigitsAt(c, p + 2);
    ok := true;
  }

  method ScanExpAt(c: Context, p: nat) returns (ok: bool, p': nat)
    requires p < |c.text| && c.ValidText()
    ensures p' < |c.text| && ScanExp(c.RestAt(p)) == if ok then Stop(c.RestAt(p')) else Reject
  {
    Reads(c, p);
    if !IsE(c.text[p]) { return true, p; }
    p' := p + 1;
    Reads(c, p');
    if IsSign(c.text[p']) { p' := p' + 1; }
    Reads(c, p');
    assert c.RestAt(p') == if IsSign(Peek(c.RestAt(p)[1..])) then c.RestAt(p)[2..] else c.RestAt(p)[1..];
    if !IsDigit(c.text[p']) { return false, p; }
    p' := ScanDigitsAt(c, p' + 1);
    ok := true;
  }

  method ParseNumberAt(c: Context, libc: Libc, v: Node) returns (ret: Status, v': Node)
    requires c.ValidText() && v == NullN
    modifies c`json
    ensures c.ValidText()
    ensures match ParseNumber(libc, old(c.Rest()))
      case Good(value, rest) => ret == Ok && ValueOf(v') == value && v'.NumberN? && c.Rest() == rest
      case Bad(e) => ret == e != Ok && v' == v
  {
    hide ScanInt, ScanFrac, ScanExp;
    var p, ok := c.json, true;
    Reads(c, p);
    if c.text[p] == MINUS { p := p + 1; }
    ok, p := ScanIntAt(c, p);
    if !ok { return InvalidValue, v; }
    ok, p := ScanFracAt(c, p);
    if !ok { return InvalidValue, v; }
    ok, p := ScanExpAt(c, p);
    if !ok { return InvalidValue, v; }
    match libc.strtod(c.text[c.json..|c.text| - 1]) {
      case Huge => return NumberTooBig, v;
      case Finite(n) =>
        c.json := p;
        return Ok, NumberN(n);
    }
  }

  method ParseHex4(c: Context, p: nat) returns (ok: bool, p': nat, u: nat)
    requires p < |c.text| && c.ValidText()
    ensures p' < |c.text|
    ensures match Hex4(c.RestAt(p))
      case Good(x, rest) => ok && u == x && c.RestAt(p') == rest
      case Bad(e) => !ok && e == InvalidUnicodeHex
  {
    u, p' := 0, p;
    var i := 0;
    while i < 4
      invariant 0 <= i <= 4 && p' < |c.text|
      invariant Hex(c.RestAt(p), i) == Good(u, c.RestAt(p'))
    {
      Reads(c, p');
      var ch := c.text[p'];
      if !IsHex(ch) {
        HexFails(c.RestAt(p), i + 1, 4);
        return false, p', u;
      }
      ShiftInDigit(u, HexValue(ch));
      u, p' := Or(Shl(u, 4), HexValue(ch)), p' + 1;
      i := i + 1;
    }
    ok := true;
  }

  lemma ShiftInDigit(u: nat, d: nat)
    requires d < 16
    ensures Or(Shl(u, 4), d) == 16 * u + d
  {
    assert Pow2(4) == 16;
    OrDisjoint(u, d, 4);
  }

  lemma {:induction false} HexFails(s: seq<byte>, i: nat, n: nat)
    requires i <= n && Hex(s, i) == Bad(InvalidUnicodeHex)
    ensures Hex(s, n) == Bad(InvalidUnicodeHex)
    decreases n
  {
    if i < n { HexFails(s, i, n - 1); }
  }

  method EncodeUtf8(c: Context, u: nat)
    requires c.Valid() && u <= 0x10FFFF
    modifies c`size, c`stack, c`top, c.stack
    ensures c.Valid() && (c.stack == old(c.stack) || fresh(c.stack))
    ensures c.Used() == old(c.Used()) + Raws(Utf8.Encode(u))
  {
    hide Utf8.Encode, And, Pow2;
    if u <= 0x7F {
      Utf8.MaskByte(u);
      c.PutByte(And(u, 0xFF));
    } else if u <= 0x7FF {
      EncodeUtf8Of2(c, u);
    } else if u <= 0xFFFF {
      EncodeUtf8Of3(c, u);
    } else {
      EncodeUtf8Of4(c, u);
    }
  }

  method EncodeUtf8Of2(c: Context, u: nat)
    requires c.Valid() && 0x7F < u <= 0x7FF
    modifies c`size, c`stack, c`top, c.stack
    ensures c.Valid() && (c.stack == old(c.stack) || fresh(c.stack))
    ensures c.Used() == old(c.Used()) + Raws(Utf8.Distributed(u))
  {
    hide Utf8.LeadByte, Utf8.TailByte, Shr;
    Utf8.Shifts(u);
    c.PutByte(Utf8.LeadByte(0xC0, Shr(u, 6)));
    c.PutByte(Utf8.TailByte(u));
  }

  method EncodeUtf8Of3(c: Context, u: nat)
    requires c.Valid() && 0x7FF < u <= 0xFFFF
    modifies c`size, c`stack, c`top, c.stack
    ensures c.Valid() && (c.stack == old(c.stack) || fresh(c.stack))
    ensures c.Used() == old(c.Used()) + Raws(Utf8.Distributed(u))
  {
    hide Utf8.LeadByte, Utf8.TailByte, Shr;
    Utf8.Shifts(u);
    c.PutByte(Utf8.LeadByte(0xE0, Shr(u, 12)));
    c.PutByte(Utf8.TailByte(Shr(u, 6)));
    c.PutByte(Utf8.TailByte(u));
  }

  method EncodeUtf8Of4(c: Context, u: nat)
    requires c.Valid() && 0xFFFF < u <= 0x10FFFF
    modifies c`size, c`stack, c`top, c.stack
    ensures c.Valid() && (c.stack == old(c.stack) || fresh(c.stack))
    ensures c.Used() == old(c.Used()) + Raws(Utf8.Distributed(u))
  {
    hide Utf8.LeadByte, Utf8.TailByte, Shr;
    Utf8.Shifts(u);
    c.PutByte(Utf8.LeadByte(0xF0, Shr(u, 18)));
    c.PutByte(Utf8.TailByte(Shr(u, 12)));
    c.PutByte(Utf8.TailByte(Shr(u, 6)));
    c.PutByte(Utf8.TailByte(u));
  }

  /** What follows `\\u`, as one code point. */
  method ParseUnicodeAt(c: Context, p: nat) returns (ret: Status, p': nat, u: nat)
    requires p < |c.text| && c.ValidText()
    ensures p' < |c.text|
    ensures match ParseUnicode(c.RestAt(p))
      case Good(x, rest) => ret == Ok && u == x && c.RestAt(p') == rest
      case Bad(e) => ret == e != Ok
  {
    hide Hex4, Utf8.Combine;
    var ok;
    ok, p', u := ParseHex4(c, p);
    if !ok { return InvalidUnicodeHex, p, 0; }
    if 0xD800 <= u <= 0xDBFF {
      Reads(c, p');
      if c.text[p'] != BACKSLASH { return InvalidUnicodeSurrogate, p, 0; }
      Reads(c, p' + 1);
      if c.text[p' + 1] != 0x75 { return InvalidUnicodeSurrogate, p, 0; }
      assert c.RestAt(p' + 2) == c.RestAt(p')[2..];
      var u2;
      ok, p', u2 := ParseHex4(c, p' + 2);
      if !ok { return InvalidUnicodeHex, p, 0; }
      if u2 < 0xDC00 || u2 > 0xDFFF { return InvalidUnicodeSurrogate, p, 0; }
      u := Utf8.Combine(u, u2);
    }
    ret := Ok;
  }

  /** What follows a backslash: its bytes are pushed. */
  method ParseEscapeAt(c: Context, p: nat) returns (ret: Status, p': nat)
    requires p < |c.text| && c.ValidText() && c.Valid()
    modifies c`size, c`stack, c`top, c.stack
    ensures p' < |c.text| && c.Valid() && (c.stack == old(c.stack) || fresh(c.stack))
    ensures match ParseEscape(c.RestAt(p))
      case Good(bs, rest) => ret == Ok && c.RestAt(p') == rest && c.Used() == old(c.Used()) + Raws(bs)
      case Bad(e) => ret == e != Ok && c.Used() == old(c.Used())
  {
    hide ParseUnicode, Utf8.Encode;
    Reads(c, p);
    p' := p;
    if c.text[p] == 0x75 {
      var u;
      ret, p', u := ParseUnicodeAt(c, p + 1);
      if ret == Ok {
        EncodeUtf8(c, u);
      }
    } else if c.text[p] == QUOTE {
      c.PutByte(QUOTE);
      return Ok, p + 1;
    } else if c.text[p] == BACKSLASH {
      c.PutByte(BACKSLASH);
      return Ok, p + 1;
    } else if c.text[p] == SLASH {
      c.PutByte(SLASH);
      return Ok, p + 1;
    } else if c.text[p] == 0x62 {
      c.PutByte(0x08);
      return Ok, p + 1;
    } else if c.text[p] == 0x66 {
      c.PutByte(0x0C);
      return Ok, p + 1;
    } else if c.text[p] == 0x6E {
      c.PutByte(0x0A);
      return Ok, p + 1;
    } else if c.text[p] == 0x72 {
      c.PutByte(0x0D);
      return Ok, p + 1;
    } else if c.text[p] == 0x74 {
      c.PutByte(0x09);
      return Ok, p + 1;
    } else {
      return InvalidStringEscape, p;
    }
  }

  lemma RawsConcat(a: seq<byte>, b: seq<byte>)
    ensures Raws(a + b) == Raws(a) + Raws(b)
  {}

  /** One turn of the loop over a string, the closing quote excepted. */
  method ParseCharAt(c: Context, p: nat, ghost read: seq<byte>) returns (ret: Status, p': nat, ghost bs: seq<byte>)
    requires p < |c.text| && c.ValidText() && c.Valid() && c.text[p] != QUOTE
    modifies c`size, c`stack, c`top, c.stack
    ensures p' < |c.text| && c.Valid() && (c.stack == old(c.stack) || fresh(c.stack))
    ensures ret == Ok ==> p' > p && c.Used() == old(c.Used()) + Raws(bs)
    ensures ret == Ok ==> ParseChars(c.RestAt(p), read) == ParseChars(c.RestAt(p'), read + bs)
    ensures ret != Ok ==> ParseChars(c.RestAt(p), read) == Bad(ret) && c.Used() == old(c.Used())
  {
    hide ParseEscape;
    Reads(c, p);
    p', bs := p, [];
    var ch := c.text[p];
    if ch == BACKSLASH {
      ret, p' := ParseEscapeAt(c, p + 1);
      if ret == Ok { bs := ParseEscape(c.RestAt(p + 1)).value; }
    } else if ch == 0 {
      ret := MissQuotationMark;
    } else if ch < 0x20 {
      ret := InvalidStringChar;
    } else {
      c.PutByte(ch);
      ret, p', bs := Ok, p + 1, [ch];
    }
  }

  lemma CharsEnd(s: seq<byte>, read: seq<byte>)
    requires Peek(s) == QUOTE
    ensures ParseChars(s, read) == Good(read, s[1..])
  {}

  /** The loop over a string up to its closing quote: its bytes gather above the top. */
  method ParseCharsAt(c: Context, p: nat) returns (ret: Status, p': nat)
    requires p < |c.text| && c.ValidText() && c.Valid()
    modifies c`size, c`stack, c`top, c.stack
    ensures p' < |c.text| && c.Valid() && (c.stack == old(c.stack) || fresh(c.stack)) && c.top >= old(c.top)
    ensures match ParseChars(c.RestAt(p), [])
      case Good(bs, rest) =>
        ret == Ok && c.RestAt(p') == rest && c.Used() == old(c.Used()) + Raws(bs)
      case Bad(e) => ret == e != Ok && c.Used()[..old(c.top)] == old(c.Used())
  {
    hide ParseChars, IsCString;
    ghost var base := c.Used();
    ghost var read: seq<byte> := [];
    p' := p;
    while c.text[p'] != QUOTE
      invariant c.Valid() && (c.stack == old(c.stack) || fresh(c.stack))
      invariant p' < |c.text|
      invariant c.Used() == base + Raws(read)
      invariant ParseChars(c.RestAt(p'), read) == ParseChars(c.RestAt(p), [])
      decreases |c.text| - p'
    {
      ghost var bs;
      ret, p', bs := ParseCharAt(c, p', read);
      if ret != Ok { return; }
      RawsConcat(read, bs);
      read := read + bs;
    }
    Reads(c, p');
    CharsEnd(c.RestAt(p'), read);
    p' := p' + 1;
    ret := Ok;
  }

  /** The top ends where it began, the bytes of the string lie just above it. */
  method ParseStringRaw(c: Context) returns (ret: Status, str: nat, len: nat)
    requires c.ValidText() && c.Valid() && c.text[c.json] == QUOTE
    modifies c`json, c`size, c`stack, c`top, c.stack
    ensures c.ValidText() && c.Valid() && (c.stack == old(c.stack) || fresh(c.stack))
    ensures c.Used() == old(c.Used())
    ensures match ParseString(old(c.Rest()))
      case Good(bs, rest) =>
        ret == Ok && c.Rest() == rest && len == |bs| && str + len <= c.stack.Length && c.stack[str..str + len] == Raws(bs)
      case Bad(e) => ret == e != Ok
  {
    hide ParseChars, IsCString;
    var head := c.top;
    ghost var base := c.Used();
    Reads(c, c.json);
    var p;
    ret, p := ParseCharsAt(c, c.json + 1);
    if ret != Ok {
      assert c.stack[..head] == c.Used()[..head];
      c.top := head;
      return ret, 0, 0;
    }
    ghost var full := c.Used();
    len := c.top - head;
    str := c.Pop(len);
    c.json := p;
    assert c.stack[str..str + len] == full[|base|..];
  }

  /** `lept_set_string`. */
  method SetString(c: Context, v: Node, str: nat, len: nat, ghost bs: seq<byte>) returns (v': Node)
    requires c.heap.Valid() && Blocks(v) <= c.heap.live
    requires |bs| == len && str + len <= c.stack.Length && c.stack[str..str + len] == Raws(bs)
    modifies c.heap
    ensures c.heap.Valid() && ValueOf(v') == String(bs) && Rooted(v')
    ensures c.heap.live == old(c.heap.live) - Blocks(v) + Blocks(v')
  {
    var _ := c.heap.FreeTree(v);
    var s := c.heap.Malloc();
    var copy := c.CopyBytes(str, bs, len);
    v' := StringN(s, copy);
  }

  method ParseStringValue(c: Context, v: Node) returns (ret: Status, v': Node)
    requires c.ValidText() && c.Valid() && c.text[c.json] == QUOTE && v == NullN && c.heap.Valid()
    modifies c`json, c`size, c`stack, c`top, c.stack, c.heap
    ensures c.ValidText() && c.Valid() && c.heap.Valid() && (c.stack == old(c.stack) || fresh(c.stack))
    ensures c.Used() == old(c.Used())
    ensures match ParseString(old(c.Rest()))
      case Good(bs, rest) =>
        ret == Ok && ValueOf(v') == String(bs) && Rooted(v') && c.Rest() == rest && c.heap.live == old(c.heap.live) + Blocks(v')
      case Bad(e) => ret == e != Ok && v' == NullN && c.heap.live == old(c.heap.live)
  {
    hide ParseString;
    var str, len;
    v' := v;
    ret, str, len := ParseStringRaw(c);
    if ret == Ok {
      v' := SetString(c, v, str, len, ParseString(old(c.Rest())).value);
    }
  }

  // ---------------------------------------------------------------- arrays and objects

  /** One unfolding of `ParseElements`. */
  lemma ElementsStep(libc: Libc, s: seq<byte>, read: seq<Value>)
    ensures JsonParse.ParseValue(libc, s).Bad? ==> ParseElements(libc, s, read) == Bad(JsonParse.ParseValue(libc, s).status)
    ensures JsonParse.ParseValue(libc, s).Good? ==>
      ParseElements(libc, s, read) ==
        AfterElement(libc, SkipWs(JsonParse.ParseValue(libc, s).rest), read + [JsonParse.ParseValue(libc, s).value])
  {}

  function AfterElement(libc: Libc, s: seq<byte>, read: seq<Value>): Parsed<Value> {
    if Peek(s) == COMMA then ParseElements(libc, SkipWs(s[1..]), read)
    else if Peek(s) == RBRACKET then Good(Array(read), s[1..])
    else Bad(MissCommaOrSquareBracket)
  }

  /** One unfolding of `ParseMembers`. */
  lemma MembersStep(libc: Libc, s: seq<byte>, read: seq<Member>)
    ensures ParseMember(libc, s).Bad? ==> ParseMembers(libc, s, read) == Bad(ParseMember(libc, s).status)
    ensures ParseMember(libc, s).Good? ==>
      ParseMembers(libc, s, read) ==
        AfterMember(libc, SkipWs(ParseMember(libc, s).rest), read + [ParseMember(libc, s).value])
  {}

  function AfterMember(libc: Libc, s: seq<byte>, read: seq<Member>): Parsed<Value> {
    if Peek(s) == COMMA then ParseMembers(libc, SkipWs(s[1..]), read)
    else if Peek(s) == RBRACE then Good(Object(read), s[1..])
    else Bad(MissCommaOrCurlyBracket)
  }

  function ValueItems(es: seq<Node>): seq<Item> { seq(|es|, i requires 0 <= i < |es| => ValueItem(es[i])) }

  function MemberItems(ms: seq<MemberN>): seq<Item> { seq(|ms|, i requires 0 <= i < |ms| => MemberItem(ms[i])) }

  /** Elements `es` pushed onto `base`, their blocks added to `live`. */
  ghost predicate Holds(c: Context, es: seq<Node>, base: seq<Slot>, live: multiset<Ptr>)
    reads c`stack, c`size, c`top, c.stack, c.heap
  {
    c.Valid() && c.heap.Valid() && c.Used() == base + Flat(ValueItems(es)) && c.heap.live == live + BlocksFrom(es, 0)
  }

  ghost predicate HoldsMembers(c: Context, ms: seq<MemberN>, base: seq<Slot>, live: multiset<Ptr>)
    reads c`stack, c`size, c`top, c.stack, c.heap
  {
    c.Valid() && c.heap.Valid() && c.Used() == base + Flat(MemberItems(ms)) && c.heap.live == live + MemberBlocksFrom(ms, 0)
  }

  lemma Appended(es: seq<Node>, e: Node)
    ensures Flat(ValueItems(es + [e])) == Flat(ValueItems(es)) + ItemBytes(ValueItem(e))
    ensures BlocksFrom(es + [e], 0) == BlocksFrom(es, 0) + Blocks(e)
    ensures ValuesOf(es + [e]) == ValuesOf(es) + [ValueOf(e)]
  {
    assert ValueItems(es + [e]) == ValueItems(es) + [ValueItem(e)];
    FlatSnoc(ValueItems(es), ValueItem(e));
    BlocksSnoc(es, e, 0);
  }

  lemma AppendedMember(ms: seq<MemberN>, m: MemberN)
    ensures Flat(MemberItems(ms + [m])) == Flat(MemberItems(ms)) + ItemBytes(MemberItem(m))
    ensures MemberBlocksFrom(ms + [m], 0) == MemberBlocksFrom(ms, 0) + MemberBlocks(m)
    ensures MembersOf(ms + [m]) == MembersOf(ms) + [Member(m.k, ValueOf(m.v))]
  {
    assert MemberItems(ms + [m]) == MemberItems(ms) + [MemberItem(m)];
    FlatSnoc(MemberItems(ms), MemberItem(m));
    MemberBlocksSnoc(ms, m, 0);
  }

  /** Pops the item on top. */
  method PopItem(c: Context, sizeof: nat, ghost item: Item, ghost below: seq<Slot>) returns (r: Item)
    requires c.Valid() && sizeof == SizeOf(item) && c.Used() == below + ItemBytes(item)
    modifies c`top
    ensures c.Valid() && c.Used() == below && r == item
  {
    ghost var was := c.Used();
    var at := c.Pop(sizeof);
    assert c.stack[at] == was[at] == Field(item, 0);
    r := c.stack[at].item;
  }

  /** Pops the elements pushed onto `base` and frees them, last first. */
  method DropElements(c: Context, count: nat, ghost es: seq<Node>, ghost base: seq<Slot>, ghost live: multiset<Ptr>)
    requires Holds(c, es, base, live) && |es| == count
    modifies c`top, c.heap
    ensures Holds(c, [], base, live)
  {
    hide BlocksFrom, Blocks, Flat, ItemBytes;
    var i := 0;
    ghost var left := es;
    while i < count
      invariant 0 <= i <= count && |left| == count - i
      invariant Holds(c, left, base, live)
    {
      ghost var front, last := left[..|left| - 1], left[|left| - 1];
      assert left == front + [last];
      Appended(front, last);
      assert c.Used() == (base + Flat(ValueItems(front))) + ItemBytes(ValueItem(last));
      var item := PopItem(c, SIZEOF_VALUE, ValueItem(last), base + Flat(ValueItems(front)));
      var _ := c.heap.FreeTree(item.v);
      left := front;
      i := i + 1;
    }
    assert left == [];
  }

  method DropMembers(c: Context, count: nat, ghost ms: seq<MemberN>, ghost base: seq<Slot>, ghost live: multiset<Ptr>)
    requires HoldsMembers(c, ms, base, live) && |ms| == count
    modifies c`top, c.heap
    ensures HoldsMembers(c, [], base, live)
  {
    hide MemberBlocksFrom, MemberBlocks, Flat, ItemBytes;
    var i := 0;
    ghost var left := ms;
    while i < count
      invariant 0 <= i <= count && |left| == count - i
      invariant HoldsMembers(c, left, base, live)
    {
      ghost var front, last := left[..|left| - 1], left[|left| - 1];
      assert left == front + [last];
      AppendedMember(front, last);
      assert c.Used() == (base + Flat(MemberItems(front))) + ItemBytes(MemberItem(last));
      var item := PopItem(c, SIZEOF_MEMBER, MemberItem(last), base + Flat(MemberItems(front)));
      c.heap.FreeMember(item.m);
      left := front;
      i := i + 1;
    }
    assert left == [];
  }

  /** The elements pushed onto `base`, moved into a block of their own. */
  method TakeElements(c: Context, count: nat, ghost es: seq<Node>, ghost base: seq<Slot>, ghost live: multiset<Ptr>)
    returns (v: Node)
    requires Holds(c, es, base, live) && |es| == count > 0
    modifies c`top, c.heap
    ensures c.Valid() && c.heap.Valid() && c.Used() == base
    ensures ValueOf(v) == Array(ValuesOf(es)) && Rooted(v) && c.heap.live == live + Blocks(v)
  {
    ghost var items, was := ValueItems(es), c.Used();
    FlatAt(items, SIZEOF_VALUE);
    var e := c.heap.Malloc();
    var at := c.Pop(count * SIZEOF_VALUE);
    assert c.stack[at..at + |Flat(items)|] == was[at..];
    var r := c.CopyItems(at, items, count, SIZEOF_VALUE);
    var nodes := seq(count, i requires 0 <= i < count => r[i].v);
    assert nodes == es;
    v := ArrayN(e, nodes);
  }

  method TakeMembers(c: Context, count: nat, ghost ms: seq<MemberN>, ghost base: seq<Slot>, ghost live: multiset<Ptr>)
    returns (v: Node)
    requires HoldsMembers(c, ms, base, live) && |ms| == count > 0
    modifies c`top, c.heap
    ensures c.Valid() && c.heap.Valid() && c.Used() == base
    ensures ValueOf(v) == Object(MembersOf(ms)) && Rooted(v) && c.heap.live == live + Blocks(v)
  {
    ghost var items, was := MemberItems(ms), c.Used();
    FlatAt(items, SIZEOF_MEMBER);
    var m := c.heap.Malloc();
    var at := c.Pop(count * SIZEOF_MEMBER);
    assert c.stack[at..at + |Flat(items)|] == was[at..];
    var r := c.CopyItems(at, items, count, SIZEOF_MEMBER);
    var members := seq(count, i requires 0 <= i < count => r[i].m);
    assert members == ms;
    v := ObjectN(m, members);
  }

  method ParseElement(c: Context, libc: Libc, ghost es: seq<Node>, ghost base: seq<Slot>, ghost live: multiset<Ptr>)
    returns (ret: Status, ghost e: Node)
    requires c.ValidText() && Holds(c, es, base, live)
    modifies c, c.stack, c.heap
    ensures c.ValidText() && (c.stack == old(c.stack) || fresh(c.stack))
    ensures match JsonParse.ParseValue(libc, old(c.Rest()))
      case Good(value, rest) =>
        && ret == Ok && Holds(c, es + [e], base, live) && ValuesOf(es + [e]) == ValuesOf(es) + [value]
        && c.Rest() == SkipWs(rest) && c.json > old(c.json)
      case Bad(status) => ret == status != Ok && Holds(c, es, base, live)
    decreases |c.text| - c.json, 2
  {
    hide IsCString, JsonParse.ParseValue, SkipWs, Flat, ItemBytes, BlocksFrom, Blocks, ValuesOf, ValueItems;
    var v := NullN;
    ret, v := ParseValue(c, libc, v);
    e := v;
    if ret == Ok {
      Appended(es, e);
      c.PushItem(ValueItem(v));
      assert c.Used() == base + (Flat(ValueItems(es)) + ItemBytes(ValueItem(e)));
      ParseWhitespace(c);
    }
  }

  method ParseArray(c: Context, libc: Libc, v: Node) returns (ret: Status, v': Node)
    requires c.ValidText() && c.Valid() && c.heap.Valid() && v == NullN && c.text[c.json] == LBRACKET
    modifies c, c.stack, c.heap
    ensures c.ValidText() && c.Valid() && c.heap.Valid() && (c.stack == old(c.stack) || fresh(c.stack))
    ensures c.Used() == old(c.Used())
    ensures Delivers(JsonParse.ParseValue(libc, old(c.Rest())), ret, v', old(c.heap.live), c.heap.live)
    ensures ret == Ok ==> c.Rest() == JsonParse.ParseValue(libc, old(c.Rest())).rest
    decreases |c.text| - c.json, 0
  {
    ghost var s, base, live := c.Rest(), c.Used(), c.heap.live;
    Reads(c, c.json);
    c.json := c.json + 1;
    ParseWhitespace(c);
    ghost var s1 := c.Rest();
    Reads(c, c.json);
    if c.text[c.json] == RBRACKET {
      c.json := c.json + 1;
      return Ok, ArrayN(0, []);
    }
    Nothing();
    ret, v' := ParseElementsAt(c, libc, v, base, live);
  }

  /** The loop over the elements; `base` and `live` are the stack and the blocks at its start. */
  method ParseElementsAt(c: Context, libc: Libc, v: Node, ghost base: seq<Slot>, ghost live: multiset<Ptr>)
    returns (ret: Status, v': Node)
    requires c.ValidText() && Holds(c, [], base, live) && v == NullN
    modifies c, c.stack, c.heap
    ensures c.ValidText() && c.Valid() && c.heap.Valid() && (c.stack == old(c.stack) || fresh(c.stack))
    ensures c.Used() == base
    ensures Delivers(ParseElements(libc, old(c.Rest()), []), ret, v', live, c.heap.live)
    ensures ret == Ok ==> c.Rest() == ParseElements(libc, old(c.Rest()), []).rest
    decreases |c.text| - c.json, 3
  {
    hide JsonParse.ParseValue, ParseElements, Flat, BlocksFrom, Blocks, ValuesOf, ValueItems, SkipWs, IsCString, Holds;
    ghost var s := c.Rest();
    var size := 0;
    ghost var es: seq<Node> := [];
    Nothing();
    HoldsNothing(c, base, live);
    while true
      invariant c.ValidText() && (c.stack == old(c.stack) || fresh(c.stack))
      invariant c.json >= old(c.json) && |es| == size
      invariant Holds(c, es, base, live)
      invariant ParseElements(libc, c.Rest(), ValuesOf(es)) == ParseElements(libc, s, [])
      decreases |c.text| - c.json
    {
      ghost var e;
      ElementsStep(libc, c.Rest(), ValuesOf(es));
      ret, e := ParseElement(c, libc, es, base, live);
      if ret != Ok { break; }
      size := size + 1;
      es := es + [e];
      Reads(c, c.json);
      if c.text[c.json] == COMMA {
        c.json := c.json + 1;
        ParseWhitespace(c);
      } else if c.text[c.json] == RBRACKET {
        c.json := c.json + 1;
        v' := TakeElements(c, size, es, base, live);
        return Ok, v';
      } else {
        ret := MissCommaOrSquareBracket;
        break;
      }
    }
    DropElements(c, size, es, base, live);
    HoldsNothing(c, base, live);
    v' := v;
  }

  lemma HoldsNothing(c: Context, base: seq<Slot>, live: multiset<Ptr>)
    requires Holds(c, [], base, live)
    ensures c.Valid() && c.heap.Valid() && c.Used() == base && c.heap.live == live
  {
    Nothing();
  }

  lemma Nothing()
    ensures Flat(ValueItems([])) == [] && BlocksFrom([], 0) == multiset{} && ValuesOf([]) == []
    ensures Flat(MemberItems([])) == [] && MemberBlocksFrom([], 0) == multiset{} && MembersOf([]) == []
  {}

  method ParseValue(c: Context, libc: Libc, v: Node) returns (ret: Status, v': Node)
    requires c.ValidText() && c.Valid() && c.heap.Valid() && v == NullN
    modifies c, c.stack, c.heap
    ensures c.ValidText() && c.Valid() && c.heap.Valid() && (c.stack == old(c.stack) || fresh(c.stack))
    ensures c.Used() == old(c.Used())
    ensures Delivers(JsonParse.ParseValue(libc, old(c.Rest())), ret, v', old(c.heap.live), c.heap.live)
    ensures ret == Ok ==> c.Rest() == JsonParse.ParseValue(libc, old(c.Rest())).rest
    decreases |c.text| - c.json, 1
  {
    hide ParseElements, ParseMembers, ParseNumber, ParseString;
    Reads(c, c.json);
    var ch := c.text[c.json];
    if ch == 0x74 {
      ret, v' := ParseLiteralText(c, v, TRUE_TEXT, TrueN);
    } else if ch == 0x66 {
      ret, v' := ParseLiteralText(c, v, FALSE_TEXT, FalseN);
    } else if ch == 0x6E {
      ret, v' := ParseLiteralText(c, v, NULL_TEXT, NullN);
    } else if ch == QUOTE {
      ret, v' := ParseStringValue(c, v);
    } else if ch == LBRACKET {
      ret, v' := ParseArray(c, libc, v);
    } else if ch == LBRACE {
      ret, v' := ParseObject(c, libc, v);
    } else if ch == 0 {
      return ExpectValue, v;
    } else {
      ret, v' := ParseNumberAt(c, libc, v);
    }
  }

  /** A key with the colon behind it: on success the key's block is live, on an error it is not. */
  method ParseKey(c: Context) returns (ret: Status, kp: Ptr, k: seq<byte>)
    requires c.ValidText() && c.Valid() && c.heap.Valid()
    modifies c`json, c`size, c`stack, c`top, c.stack, c.heap
    ensures c.ValidText() && c.Valid() && c.heap.Valid() && (c.stack == old(c.stack) || fresh(c.stack))
    ensures c.Used() == old(c.Used())
    ensures match JsonParse.ParseKey(old(c.Rest()))
      case Good(bs, rest) =>
        ret == Ok && k == bs && c.Rest() == rest && c.heap.live == old(c.heap.live) + Block(kp) && c.json > old(c.json)
      case Bad(e) => ret == e != Ok && c.heap.live == old(c.heap.live)
  {
    hide SkipWs, ParseString, Flat, IsCString, Blocks;
    Reads(c, c.json);
    if c.text[c.json] != QUOTE { return MissKey, 0, []; }
    ret, kp, k := ParseKeyText(c);
    if ret != Ok { return; }
    ParseWhitespace(c);
    Reads(c, c.json);
    if c.text[c.json] != COLON {
      c.heap.Free(kp);
      return MissColon, kp, k;
    }
    c.json := c.json + 1;
    ParseWhitespace(c);
  }

  method ParseKeyText(c: Context) returns (ret: Status, kp: Ptr, k: seq<byte>)
    requires c.ValidText() && c.Valid() && c.heap.Valid() && c.text[c.json] == QUOTE
    modifies c`json, c`size, c`stack, c`top, c.stack, c.heap
    ensures c.ValidText() && c.Valid() && c.heap.Valid() && (c.stack == old(c.stack) || fresh(c.stack))
    ensures c.Used() == old(c.Used())
    ensures match ParseString(old(c.Rest()))
      case Good(bs, rest) =>
        ret == Ok && k == bs && c.Rest() == rest && c.heap.live == old(c.heap.live) + Block(kp) && c.json > old(c.json)
      case Bad(e) => ret == e != Ok && c.heap.live == old(c.heap.live)
  {
    hide ParseString;
    kp, k := 0, [];
    var str, klen;
    ret, str, klen := ParseStringRaw(c);
    if ret != Ok { return; }
    kp := c.heap.Malloc();
    k := c.CopyBytes(str, ParseString(old(c.Rest())).value, klen);
  }

  method PushMember(c: Context, m: MemberN, ghost ms: seq<MemberN>, ghost base: seq<Slot>, ghost live: multiset<Ptr>)
    requires c.Valid() && c.heap.Valid() && c.Used() == base + Flat(MemberItems(ms))
    requires c.heap.live == live + MemberBlocksFrom(ms, 0) + MemberBlocks(m)
    modifies c`size, c`stack, c`top, c.stack
    ensures HoldsMembers(c, ms + [m], base, live) && (c.stack == old(c.stack) || fresh(c.stack))
  {
    hide Flat, ItemBytes, MemberBlocksFrom, MemberBlocks;
    AppendedMember(ms, m);
    c.PushItem(MemberItem(m));
    assert c.Used() == base + (Flat(MemberItems(ms)) + ItemBytes(MemberItem(m)));
  }

  /** A key and its value, before they are pushed. */
  method ParseMemberParts(c: Context, libc: Libc) returns (ret: Status, m: MemberN)
    requires c.ValidText() && c.Valid() && c.heap.Valid()
    modifies c, c.stack, c.heap
    ensures c.ValidText() && c.Valid() && c.heap.Valid() && (c.stack == old(c.stack) || fresh(c.stack))
    ensures c.Used() == old(c.Used())
    ensures match ParseMember(libc, old(c.Rest()))
      case Good(member, rest) =>
        && ret == Ok && m.k == member.k && ValueOf(m.v) == member.v && c.Rest() == rest && c.json > old(c.json)
        && c.heap.live == old(c.heap.live) + MemberBlocks(m)
      case Bad(status) => ret == status != Ok && c.heap.live == old(c.heap.live)
    decreases |c.text| - c.json, 2
  {
    hide IsCString, JsonParse.ParseValue, JsonParse.ParseKey, Blocks, Block, ValueOf;
    var kp, k;
    m := MemberN(0, [], NullN);
    ret, kp, k := ParseKey(c);
    if ret != Ok { return; }
    var v := NullN;
    ret, v := ParseValue(c, libc, v);
    if ret != Ok {
      c.heap.Free(kp);
      return;
    }
    m := MemberN(kp, k, v);
  }

  method ParseMemberAt(c: Context, libc: Libc, ghost ms: seq<MemberN>, ghost base: seq<Slot>, ghost live: multiset<Ptr>)
    returns (ret: Status, ghost m: MemberN)
    requires c.ValidText() && HoldsMembers(c, ms, base, live)
    modifies c, c.stack, c.heap
    ensures c.ValidText() && (c.stack == old(c.stack) || fresh(c.stack))
    ensures match ParseMember(libc, old(c.Rest()))
      case Good(member, rest) =>
        && ret == Ok && HoldsMembers(c, ms + [m], base, live) && MembersOf(ms + [m]) == MembersOf(ms) + [member]
        && c.Rest() == SkipWs(rest) && c.json > old(c.json)
      case Bad(status) => ret == status != Ok && HoldsMembers(c, ms, base, live)
    decreases |c.text| - c.json, 3
  {
    hide IsCString, ParseMember, SkipWs, Flat, ItemBytes, MemberBlocksFrom, MemberBlocks, MembersOf, MemberItems;
    var m';
    ret, m' := ParseMemberParts(c, libc);
    m := m';
    if ret == Ok {
      MembersOfSnoc(ms, m);
      PushMember(c, m', ms, base, live);
      ParseWhitespace(c);
    }
  }

  method ParseObject(c: Context, libc: Libc, v: Node) returns (ret: Status, v': Node)
    requires c.ValidText() && c.Valid() && c.heap.Valid() && v == NullN && c.text[c.json] == LBRACE
    modifies c, c.stack, c.heap
    ensures c.ValidText() && c.Valid() && c.heap.Valid() && (c.stack == old(c.stack) || fresh(c.stack))
    ensures c.Used() == old(c.Used())
    ensures Delivers(JsonParse.ParseValue(libc, old(c.Rest())), ret, v', old(c.heap.live), c.heap.live)
    ensures ret == Ok ==> c.Rest() == JsonParse.ParseValue(libc, old(c.Rest())).rest
    decreases |c.text| - c.json, 0
  {
    ghost var s, base, live := c.Rest(), c.Used(), c.heap.live;
    Reads(c, c.json);
    c.json := c.json + 1;
    ParseWhitespace(c);
    ghost var s1 := c.Rest();
    Reads(c, c.json);
    if c.text[c.json] == RBRACE {
      c.json := c.json + 1;
      return Ok, ObjectN(0, []);
    }
    Nothing();
    ret, v' := ParseMembersAt(c, libc, v, base, live);
  }

  /** The loop over the members; `base` and `live` are the stack and the blocks at its start. */
  method ParseMembersAt(c: Context, libc: Libc, v: Node, ghost base: seq<Slot>, ghost live: multiset<Ptr>)
    returns (ret: Status, v': Node)
    requires c.ValidText() && HoldsMembers(c, [], base, live) && v == NullN
    modifies c, c.stack, c.heap
    ensures c.ValidText() && c.Valid() && c.heap.Valid() && (c.stack == old(c.stack) || fresh(c.stack))
    ensures c.Used() == base
    ensures Delivers(ParseMembers(libc, old(c.Rest()), []), ret, v', live, c.heap.live)
    ensures ret == Ok ==> c.Rest() == ParseMembers(libc, old(c.Rest()), []).rest
    decreases |c.text| - c.json, 4
  {
    hide ParseMember, ParseMembers, Flat, MemberBlocksFrom, Blocks, MembersOf, MemberItems, SkipWs, IsCString, HoldsMembers;
    ghost var s := c.Rest();
    var size := 0;
    ghost var ms: seq<MemberN> := [];
    Nothing();
    HoldsNoMembers(c, base, live);
    while true
      invariant c.ValidText() && (c.stack == old(c.stack) || fresh(c.stack))
      invariant c.json >= old(c.json) && |ms| == size
      invariant HoldsMembers(c, ms, base, live)
      invariant ParseMembers(libc, c.Rest(), MembersOf(ms)) == ParseMembers(libc, s, [])
      decreases |c.text| - c.json
    {
      ghost var m;
      MembersStep(libc, c.Rest(), MembersOf(ms));
      ret, m := ParseMemberAt(c, libc, ms, base, live);
      if ret != Ok { break; }
      size := size + 1;
      ms := ms + [m];
      Reads(c, c.json);
      if c.text[c.json] == COMMA {
        c.json := c.json + 1;
        ParseWhitespace(c);
      } else if c.text[c.json] == RBRACE {
        c.json := c.json + 1;
        v' := TakeMembers(c, size, ms, base, live);
        return Ok, v';
      } else {
        ret := MissCommaOrCurlyBracket;
        break;
      }
    }
    DropMembers(c, size, ms, base, live);
    HoldsNoMembers(c, base, live);
    v' := NullN;
  }

  lemma HoldsNoMembers(c: Context, base: seq<Slot>, live: multiset<Ptr>)
    requires HoldsMembers(c, [], base, live)
    ensures c.Valid() && c.heap.Valid() && c.Used() == base && c.heap.live == live
  {
    Nothing();
  }

  /**
   `lept_parse`. The tree of a value with something behind it is given up without being freed: its
   blocks, `lost`, stay live although nothing refers to them.
   */
  method Parse(json: seq<byte>, libc: Libc, heap: Heap) returns (ret: Status, v: Node, ghost lost: Node)
    requires IsCString(json) && heap.Valid()
    modifies heap
    ensures heap.Valid() && heap.live == old(heap.live) + Blocks(v) + Blocks(lost)
    ensures match JsonParse.Parse(libc, json[..|json| - 1])
      case Good(value, _) => ret == Ok && ValueOf(v) == value
      case Bad(e) => ret == e != Ok && v == NullN
    ensures Rooted(lost) && ValueOf(lost) == if ret == RootNotSingular then FirstValue(libc, json[..|json| - 1]) else Null
  {
    hide JsonParse.ParseValue, Blocks, Rooted, ValueOf;
    var c := new Context(json, heap, 0);
    v, lost := NullN, NullN;
    NullHasNone();
    assert c.Rest() == json[..|json| - 1];
    ParseWhitespace(c);
    ret, v := ParseValue(c, libc, v);
    if ret == Ok {
      ParseWhitespace(c);
      PeekIsRead(c);
      if c.text[c.json] != 0 {
        lost := v;
        v := NullN;
        ret := RootNotSingular;
      }
    }
    assert c.top == 0 by { assert c.Used() == []; }
  }

  lemma NullHasNone()
    ensures Blocks(NullN) == multiset{} && Rooted(NullN) && ValueOf(NullN) == Null
  {}

  lemma PeekIsRead(c: Context)
    requires c.ValidText()
    ensures Peek(c.Rest()) == c.text[c.json]
  {
    Reads(c, c.json);
  }

  /** The value a text starts with. */
  function FirstValue(libc: Libc, s: seq<byte>): Value {
    var p := JsonParse.ParseValue(libc, SkipWs(s));
    if p.Good? then p.value else Null
  }
}
