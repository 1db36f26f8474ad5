/** The main results on the parser and the printer. */
module JsonTheorems {
  import opened Bits
  import opened Json
  import opened JsonParse
  import opened JsonGrammar
  import opened JsonPrint
  import JsonComplete
  import JsonSound

  /** The parser accepts exactly the texts of the grammar whose numbers are in range, with the value derived. */
  lemma ParseIffDerives(libc: Libc, s: seq<byte>, v: Value)
    requires StrtodIsLocal(libc) && 0 !in s
    ensures Parse(libc, s) == Good(v, []) <==> Derives(libc, s, v)
  {
    hide ParseValue, Wf, Text, Denote, SkipWs, AllWs;
    if Parse(libc, s).Good? {
      JsonSound.ParsedText(libc, s);
    }
    if Derives(libc, s, v) {
      var w, t, w' :| IsDerivation(libc, s, w, t, w') && Denote(libc, t) == v;
      JsonComplete.ParseAccepts(libc, s, w, t, w');
    }
  }

  /** All derivations of one text denote one value. */
  lemma DerivedValueIsUnique(libc: Libc, s: seq<byte>, v: Value, v': Value)
    requires StrtodIsLocal(libc) && Derives(libc, s, v) && Derives(libc, s, v')
    ensures v == v'
  {
    hide ParseValue, Parse, Wf, Text, Denote, AllWs;
    var w, t, w' :| IsDerivation(libc, s, w, t, w') && Denote(libc, t) == v;
    JsonComplete.ParseAccepts(libc, s, w, t, w');
    var x, u, x' :| IsDerivation(libc, s, x, u, x') && Denote(libc, u) == v';
    JsonComplete.ParseAccepts(libc, s, x, u, x');
  }

  /** Behind a delimiter the parser takes exactly the printed value. */
  lemma PrintedPrefixParses(libc: Libc, v: Value, rest: seq<byte>)
    requires StrtodIsLocal(libc) && NumbersOk(libc, v) && Delimited(rest)
    ensures ParseValue(libc, Print(libc, v) + rest) == Good(v, rest)
  {
    hide ParseValue, Print, Text, Denote, Wf, TreeOf;
    PrintIsText(libc, v);
    JsonComplete.ParseValueOf(libc, TreeOf(libc, v), rest);
  }

  /** Parsing what was printed gives the value back, and nothing is left. */
  lemma RoundTrip(libc: Libc, v: Value)
    requires StrtodIsLocal(libc) && NumbersOk(libc, v)
    ensures Parse(libc, Print(libc, v)) == Good(v, [])
  {
    hide ParseValue, Parse, Print, Text, Denote, Wf, TreeOf;
    PrintIsText(libc, v);
    var t := TreeOf(libc, v);
    assert Print(libc, v) == [] + (Text(t) + []);
    assert IsDerivation(libc, Print(libc, v), [], t, []);
    JsonComplete.ParseAccepts(libc, Print(libc, v), [], t, []);
  }

  /** Two values that print alike are the same value. */
  lemma PrintIsInjective(libc: Libc, v: Value, v': Value)
    requires StrtodIsLocal(libc) && NumbersOk(libc, v) && NumbersOk(libc, v')
    requires Print(libc, v) == Print(libc, v')
    ensures v == v'
  {
    hide Parse, Print;
    RoundTrip(libc, v);
    RoundTrip(libc, v');
  }

  // ---------------------------------------------------------------- a text is a C string

  predicate NulFree(s: seq<byte>) { 0 !in s }

  lemma NulFreeConcat(a: seq<byte>, b: seq<byte>)
    ensures NulFree(a + b) <==> NulFree(a) && NulFree(b)
  {}

  lemma EscapeByteIsNulFree(b: byte)
    ensures NulFree(EscapeByte(b))
  {}

  lemma {:induction false} EscapeIsNulFree(s: seq<byte>, i: nat)
    requires i <= |s|
    ensures NulFree(EscapeFrom(s, i))
    decreases |s| - i
  {
    hide EscapeByte;
    if i < |s| {
      EscapeByteIsNulFree(s[i]);
      EscapeIsNulFree(s, i + 1);
      NulFreeConcat(EscapeByte(s[i]), EscapeFrom(s, i + 1));
    }
  }

  lemma NumberIsNulFree(num: NumLex)
    requires WfNum(num)
    ensures NulFree(NumText(num))
  {
    assert NulFree(num.minus);
    assert NulFree(num.integer);
    assert NulFree(num.frac) by {
      if num.frac != [] { assert num.frac == [num.frac[0]] + num.frac[1..]; }
    }
    assert NulFree(num.exp) by {
      if num.exp != [] {
        if Digits(num.exp[1..]) {
          assert num.exp == [num.exp[0]] + num.exp[1..];
        } else {
          assert num.exp == [num.exp[0], num.exp[1]] + num.exp[2..];
        }
      }
    }
  }

  /** No NUL is ever printed before the one that ends the text. */
  lemma {:induction false} PrintIsNulFree(libc: Libc, v: Value)
    requires NumbersOk(libc, v)
    ensures NulFree(Print(libc, v))
    decreases v
  {
    match v
    case Number(n) =>
      var num := NumberLex(libc, n);
      NumberIsNulFree(num);
    case String(s) => EscapeIsNulFree(s, 0);
    case Array(es) => ElementsAreNulFree(libc, es, 0);
    case Object(ms) => MembersAreNulFree(libc, ms, 0);
    case _ =>
  }

  lemma {:induction false} ElementsAreNulFree(libc: Libc, es: seq<Value>, i: nat)
    requires i <= |es| && forall j :: 0 <= j < |es| ==> NumbersOk(libc, es[j])
    ensures NulFree(PrintElements(libc, es, i))
    decreases es, |es| - i
  {
    hide Print;
    if i < |es| {
      PrintIsNulFree(libc, es[i]);
      ElementsAreNulFree(libc, es, i + 1);
    }
  }

  lemma {:induction false} MembersAreNulFree(libc: Libc, ms: seq<Member>, i: nat)
    requires i <= |ms| && forall j :: 0 <= j < |ms| ==> NumbersOk(libc, ms[j].v)
    ensures NulFree(PrintMembers(libc, ms, i))
    decreases ms, |ms| - i
  {
    hide Print, EscapeFrom;
    if i < |ms| {
      EscapeIsNulFree(ms[i].k, 0);
      PrintIsNulFree(libc, ms[i].v);
      MembersAreNulFree(libc, ms, i + 1);
    }
  }
}
