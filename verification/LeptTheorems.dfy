/** What the grammar and the round trip mean for the parser and the printer on their stack and heap. */
module LeptTheorems {
  import opened Bits
  import opened Json
  import opened JsonGrammar
  import opened JsonFailures
  import opened JsonPrint
  import JsonParse
  import JsonComplete
  import JsonSound
  import JsonErrors
  import JsonTheorems
  import opened LeptHeap
  import opened LeptContext
  import opened LeptEqual
  import LeptParser
  import LeptPrinter

  ghost predicate IsJsonText(libc: Libc, s: seq<byte>) {
    exists value :: Derives(libc, s, value)
  }

  /** The tree of a string, or of an array or object that is not empty. */
  predicate OwnsBlocks(t: Tree) { t.StrT? || t.ArrT? || t.ObjT? }

  /** White space, a value that owns blocks, and behind it more than white space. */
  predicate IsLosing(libc: Libc, s: seq<byte>, w: seq<byte>, t: Tree, rest: seq<byte>) {
    AllWs(w) && Wf(libc, t) && OwnsBlocks(t) && !AllWs(rest) && s == w + (Text(t) + rest)
  }

  ghost predicate LosesBlocks(libc: Libc, s: seq<byte>) {
    exists w, t, rest :: IsLosing(libc, s, w, t, rest)
  }

  /** `lept_parse` gives up blocks exactly on these texts. */
  lemma LosesIff(libc: Libc, s: seq<byte>)
    requires StrtodIsLocal(libc) && 0 !in s
    ensures LosesBlocks(libc, s) <==>
      JsonParse.Parse(libc, s) == JsonParse.Bad(RootNotSingular) && NeedsBlock(LeptParser.FirstValue(libc, s))
  {
    hide JsonParse.ParseValue, Wf, Text, Denote, JsonParse.SkipWs, AllWs;
    if LosesBlocks(libc, s) {
      var w, t, rest :| IsLosing(libc, s, w, t, rest);
      LosingIsRejected(libc, s, w, t, rest);
    }
    if JsonParse.Parse(libc, s) == JsonParse.Bad(RootNotSingular) && NeedsBlock(LeptParser.FirstValue(libc, s)) {
      RejectedIsLosing(libc, s);
    }
  }

  lemma LosingIsRejected(libc: Libc, s: seq<byte>, w: seq<byte>, t: Tree, rest: seq<byte>)
    requires StrtodIsLocal(libc) && 0 !in s && IsLosing(libc, s, w, t, rest)
    ensures JsonParse.Parse(libc, s) == JsonParse.Bad(RootNotSingular)
    ensures LeptParser.FirstValue(libc, s) == Denote(libc, t) && NeedsBlock(Denote(libc, t))
  {
    hide JsonParse.ParseValue, JsonParse.SkipWs;
    JsonComplete.FirstOfText(libc, t);
    JsonComplete.SkipWsOf(w, Text(t) + rest);
    JsonComplete.ParseValueOf(libc, t, rest);
    SkipsToSomething(rest);
    DenotesBlocks(libc, t);
    assert forall b :: b in rest ==> b in s;
  }

  lemma {:induction false} SkipsToSomething(rest: seq<byte>)
    ensures JsonParse.SkipWs(rest) != [] <==> !AllWs(rest)
    ensures JsonParse.SkipWs(rest) != [] ==> JsonParse.SkipWs(rest)[0] in rest
  {
    if rest != [] {
      SkipsToSomething(rest[1..]);
      assert AllWs(rest) <==> IsWs(rest[0]) && AllWs(rest[1..]);
    }
  }

  lemma DenotesBlocks(libc: Libc, t: Tree)
    requires Wf(libc, t)
    ensures NeedsBlock(Denote(libc, t)) <==> OwnsBlocks(t)
  {
    match t
    case ArrT(_, items) => assert DenoteItems(libc, items) != [];
    case ObjT(_, entries) => assert DenoteEntries(libc, entries) != [];
    case _ =>
  }

  lemma RejectedIsLosing(libc: Libc, s: seq<byte>)
    requires StrtodIsLocal(libc) && 0 !in s
    requires JsonParse.Parse(libc, s) == JsonParse.Bad(RootNotSingular) && NeedsBlock(LeptParser.FirstValue(libc, s))
    ensures LosesBlocks(libc, s)
  {
    hide JsonParse.ParseValue, JsonParse.SkipWs, Wf, Text, Denote, AllWs;
    var w := JsonSound.SkippedWs(s);
    var s0 := JsonParse.SkipWs(s);
    var rest := JsonParse.ParseValue(libc, s0).rest;
    var t := JsonSound.ParsedValue(libc, s0);
    DenotesBlocks(libc, t);
    SkipsToSomething(rest);
    assert IsLosing(libc, s, w, t, rest);
  }

  /** The text `"a"x` loses the block of its string. */
  lemma StringLost(libc: Libc)
    requires StrtodIsLocal(libc)
    ensures var s := [QUOTE, 0x61, QUOTE, 0x78];
      LosesBlocks(libc, s) && JsonParse.Parse(libc, s) == JsonParse.Bad(RootNotSingular)
      && LeptParser.FirstValue(libc, s) == String([0x61])
  {
    var s := [QUOTE, 0x61, QUOTE, 0x78];
    var t := StrT([Plain(0x61)]);
    assert Text(t) == [QUOTE, 0x61, QUOTE];
    assert s == [] + (Text(t) + [0x78]);
    assert !IsWs([0x78 as byte][0]) && !AllWs([0x78]);
    assert WfChar(Plain(0x61)) && WfChars([]) && Wf(libc, t);
    assert IsLosing(libc, s, [], t, [0x78]);
    LosingIsRejected(libc, s, [], t, [0x78]);
    assert Denote(libc, t) == String([0x61]);
  }

  /**
   `lept_parse` decides the grammar, the tree it builds stands for the value derived, any other status
   names what is wrong with the text, and every live block belongs to that tree unless the text is one
   of those that lose blocks.
   */
  method ParseDecides(json: seq<byte>, libc: Libc, heap: Heap) returns (ret: Status, v: Node)
    requires StrtodIsLocal(libc) && IsCString(json) && heap.Valid()
    modifies heap
    ensures ret == Ok <==> IsJsonText(libc, json[..|json| - 1])
    ensures ret == Ok ==> Derives(libc, json[..|json| - 1], ValueOf(v))
    ensures ret != Ok <==> FailsWith(libc, json[..|json| - 1], ret)
    ensures heap.live == old(heap.live) + Blocks(v) <==> !LosesBlocks(libc, json[..|json| - 1])
  {
    hide JsonParse.ParseValue, Derives, Blocks, Rooted, ValueOf, LosesBlocks, NeedsBlock, FailsWith;
    ghost var s := json[..|json| - 1];
    ghost var lost;
    ret, v, lost := LeptParser.Parse(json, libc, heap);
    forall value | Derives(libc, s, value)
      ensures JsonParse.Parse(libc, s).Good?
    {
      JsonTheorems.ParseIffDerives(libc, s, value);
    }
    if ret == Ok {
      JsonTheorems.ParseIffDerives(libc, s, ValueOf(v));
    }
    JsonErrors.FailsIff(libc, s, ret);
    LosesIff(libc, s);
    BlocklessIff(lost);
    NullNeedsNone();
  }

  lemma NullNeedsNone()
    ensures !NeedsBlock(Null)
  {}

  /** Print a value, parse the text, compare: the parser succeeds and the trees are equal. */
  method PrintAndParse(libc: Libc, v: Value, heap: Heap) returns (ret: Status, equal: bool)
    requires StrtodIsLocal(libc) && NumbersOk(libc, v) && SelfEqual(libc, v) && heap.Valid()
    modifies heap
    ensures ret == Ok && equal
  {
    hide Print, JsonParse.Parse, Blocks, ValueOf;
    LeptPrinter.NumbersOkFit(libc, v);
    var text, length := LeptPrinter.Stringify(libc, v);
    JsonTheorems.PrintIsNulFree(libc, v);
    assert text[..|text| - 1] == Print(libc, v);
    assert IsCString(text);
    JsonTheorems.RoundTrip(libc, v);
    var tree;
    ghost var lost;
    ret, tree, lost := LeptParser.Parse(text, libc, heap);
    EqualIsReflexive(libc, v);
    equal := IsEqual(libc, ValueOf(tree), v);
  }
}
