/**
 The UTF-8 encoder of the string parser and its surrogate-pair formula, against the
 byte-sequence syntax of section 4 of RFC 3629 and section 2.2 of RFC 2781.
 */
module Utf8 {
  import opened Bits

  datatype Option<+T> = None | Some(value: T)

  predicate IsScalar(u: int) {
    0 <= u < 0xD800 || 0xE000 <= u <= 0x10FFFF
  }

  /** The encoder, operator by operator; it also accepts lone surrogates. */
  function Encode(u: nat): (bs: seq<byte>)
    requires u <= 0x10FFFF
    ensures bs == Distributed(u)
  {
    hide Encode1, Encode2, Encode3, Encode4, Distributed;
    if u <= 0x7F then Encode1(u)
    else if u <= 0x7FF then Encode2(u)
    else if u <= 0xFFFF then Encode3(u)
    else Encode4(u)
  }

  /** `u & 0xFF`. */
  function LowByte(u: nat): (b: byte)
    ensures b == u % 256
  {
    MaskByte(u);
    And(u, 0xFF)
  }

  function Encode1(u: nat): (bs: seq<byte>)
    requires u <= 0x7F
    ensures bs == Distributed(u)
  {
    hide LowByte;
    SmallRemainder(u);
    [LowByte(u)]
  }

  lemma SmallRemainder(u: nat)
    requires u <= 0x7F
    ensures u % 256 == u
  {}

  function Encode2(u: nat): (bs: seq<byte>)
    requires 0x7F < u <= 0x7FF
    ensures bs == Distributed(u)
  {
    Shifts(u);
    [LeadByte(0xC0, Shr(u, 6)), TailByte(u)]
  }

  function Encode3(u: nat): (bs: seq<byte>)
    requires 0x7FF < u <= 0xFFFF
    ensures bs == Distributed(u)
  {
    Shifts(u);
    [LeadByte(0xE0, Shr(u, 12)), TailByte(Shr(u, 6)), TailByte(u)]
  }

  function Encode4(u: nat): (bs: seq<byte>)
    requires 0xFFFF < u <= 0x10FFFF
    ensures bs == Distributed(u)
  {
    Shifts(u);
    [LeadByte(0xF0, Shr(u, 18)), TailByte(Shr(u, 12)), TailByte(Shr(u, 6)), TailByte(u)]
  }

  /** `prefix | (x & 0xFF)`: the payload below the mark 110, 1110 or 1111. */
  function LeadByte(prefix: byte, x: nat): (b: byte)
    requires (prefix == 0xC0 && x < 32) || ((prefix == 0xE0 || prefix == 0xF0) && x < 16)
    ensures b == prefix + x
  {
    LeadIsSum(prefix, x);
    Or(prefix, And(x, 0xFF))
  }

  /** `0x80 | (x & 0x3F)`. */
  function TailByte(x: nat): (b: byte)
    ensures b == 0x80 + x % 64
  {
    TailIsSum(x);
    Or(0x80, And(x, 0x3F))
  }

  /** The same bytes by the bit distribution table of section 3 of RFC 3629. */
  function Distributed(u: nat): seq<byte>
    requires u <= 0x10FFFF
  {
    if u <= 0x7F then [u]
    else if u <= 0x7FF then [0xC0 + u / 64, 0x80 + u % 64]
    else if u <= 0xFFFF then [0xE0 + u / 4096, 0x80 + u / 64 % 64, 0x80 + u % 64]
    else [0xF0 + u / 0x40000, 0x80 + u / 4096 % 64, 0x80 + u / 64 % 64, 0x80 + u % 64]
  }

  // The masks and shifts of the encoder, each as arithmetic.

  lemma LeadIsSum(prefix: byte, x: nat)
    requires (prefix == 0xC0 && x < 32) || ((prefix == 0xE0 || prefix == 0xF0) && x < 16)
    ensures Or(prefix, And(x, 0xFF)) == prefix + x
  {
    MaskByte(x);
    assert And(x, 0xFF) == x;
    if prefix == 0xC0 { Fill(prefix, 6, 5, x); }
    else if prefix == 0xE0 { Fill(prefix, 14, 4, x); }
    else { Fill(prefix, 15, 4, x); }
  }

  lemma Fill(prefix: nat, high: nat, k: nat, x: nat)
    requires k == 4 || k == 5
    requires prefix == (if k == 4 then high * 16 else high * 32)
    requires if k == 4 then x < 16 else x < 32
    ensures Or(prefix, x) == prefix + x
  {
    assert Pow2(4) == 16 && Pow2(5) == 32;
    OrDisjoint(high, x, k);
  }

  lemma TailIsSum(x: nat)
    ensures Or(0x80, And(x, 0x3F)) == 0x80 + x % 64
  {
    assert Pow2(6) == 64;
    AndMask(x, 6);
    OrDisjoint(2, x % 64, 6);
  }

  lemma MaskByte(u: nat)
    ensures And(u, 0xFF) == u % 256
  {
    assert Pow2(8) == 256;
    AndMask(u, 8);
  }

  lemma Shifts(u: nat)
    ensures Shr(u, 6) == u / 64 && Shr(u, 12) == u / 4096 && Shr(u, 18) == u / 0x40000
  {
    assert Pow2(6) == 64;
    assert Pow2(12) == 4096;
    assert Pow2(18) == 0x40000;
    ShrDivides(u, 6);
    ShrDivides(u, 12);
    ShrDivides(u, 18);
  }

  // ---------------------------------------------------------------- section 4 of RFC 3629

  predicate Tail(b: byte) { 0x80 <= b <= 0xBF }

  predicate Lead3(a: byte, b: byte) {
    || (a == 0xE0 && 0xA0 <= b <= 0xBF)
    || (0xE1 <= a <= 0xEC && Tail(b))
    || (a == 0xED && 0x80 <= b <= 0x9F)
    || (0xEE <= a <= 0xEF && Tail(b))
  }

  predicate Lead4(a: byte, b: byte) {
    || (a == 0xF0 && 0x90 <= b <= 0xBF)
    || (0xF1 <= a <= 0xF3 && Tail(b))
    || (a == 0xF4 && 0x80 <= b <= 0x8F)
  }

  /** Appends the six payload digits of a tail byte. */
  function Join(high: nat, tail: byte): nat
    requires Tail(tail)
  {
    high * 64 + (tail - 0x80)
  }

  /** A strict decoder for the first character of `s`: its scalar value and its length. */
  function DecodeFirst(s: seq<byte>): (r: Option<(nat, nat)>)
    ensures r.Some? ==> 1 <= r.value.1 <= |s| && IsScalar(r.value.0)
  {
    if |s| >= 1 && s[0] <= 0x7F then
      Some((s[0], 1))
    else if |s| >= 2 && 0xC2 <= s[0] <= 0xDF && Tail(s[1]) then
      Some((Join(s[0] - 0xC0, s[1]), 2))
    else if |s| >= 3 && Lead3(s[0], s[1]) && Tail(s[2]) then
      Some((Join(Join(s[0] - 0xE0, s[1]), s[2]), 3))
    else if |s| >= 4 && Lead4(s[0], s[1]) && Tail(s[2]) && Tail(s[3]) then
      Some((Join(Join(Join(s[0] - 0xF0, s[1]), s[2]), s[3]), 4))
    else
      None
  }

  lemma DecodeOfEncode(u: nat, rest: seq<byte>)
    requires IsScalar(u)
    ensures DecodeFirst(Distributed(u) + rest) == Some((u, |Distributed(u)|))
  {
    hide DecodeFirst;
    var s := Distributed(u) + rest;
    if u <= 0x7F {
      DecodeOf1(s);
    } else if u <= 0x7FF {
      DecodeOf2(u, s);
    } else if u <= 0xFFFF {
      DecodeOf3(u, s);
    } else {
      DecodeOf4(u, s);
    }
  }

  lemma DecodeOf1(s: seq<byte>)
    requires |s| >= 1 && s[0] <= 0x7F
    ensures DecodeFirst(s) == Some((s[0], 1))
  {}

  lemma DecodeOf2(u: nat, s: seq<byte>)
    requires 0x7F < u <= 0x7FF && |s| >= 2 && s[0] == 0xC0 + u / 64 && s[1] == 0x80 + u % 64
    ensures DecodeFirst(s) == Some((u, 2))
  {}

  lemma DecodeOf3(u: nat, s: seq<byte>)
    requires 0x7FF < u <= 0xFFFF && IsScalar(u) && |s| >= 3
    requires s[0] == 0xE0 + u / 4096 && s[1] == 0x80 + u / 64 % 64 && s[2] == 0x80 + u % 64
    ensures DecodeFirst(s) == Some((u, 3))
  {
    Digits(u);
    assert Lead3(s[0], s[1]);
  }

  lemma DecodeOf4(u: nat, s: seq<byte>)
    requires 0xFFFF < u <= 0x10FFFF && |s| >= 4
    requires s[0] == 0xF0 + u / 0x40000 && s[1] == 0x80 + u / 4096 % 64 && s[2] == 0x80 + u / 64 % 64 && s[3] == 0x80 + u % 64
    ensures DecodeFirst(s) == Some((u, 4))
  {
    Digits(u);
    assert Lead4(s[0], s[1]);
  }

  /** The base-64 digits of `u`. */
  lemma Digits(u: nat)
    ensures u == u / 64 * 64 + u % 64
    ensures u / 64 == u / 4096 * 64 + u / 64 % 64
    ensures u / 4096 == u / 0x40000 * 64 + u / 4096 % 64
    ensures u / 4096 == u / 64 / 64 && u / 0x40000 == u / 4096 / 64
  {}

  lemma JoinDigits(h: nat, t: byte)
    requires Tail(t)
    ensures Join(h, t) / 64 == h && Join(h, t) % 64 == t - 0x80
  {}

  lemma EncodeOfDecode(s: seq<byte>)
    requires DecodeFirst(s).Some?
    ensures var (u, n) := DecodeFirst(s).value; Distributed(u) == s[..n]
  {
    var (u, n) := DecodeFirst(s).value;
    if n == 2 {
      JoinDigits(s[0] - 0xC0, s[1]);
    } else if n == 3 {
      EncodeOfDecode3(s);
    } else if n == 4 {
      EncodeOfDecode4(s);
    }
  }

  lemma EncodeOfDecode3(s: seq<byte>)
    requires |s| >= 3 && Lead3(s[0], s[1]) && Tail(s[2])
    ensures Distributed(Join(Join(s[0] - 0xE0, s[1]), s[2])) == s[..3]
  {
    var x := Join(s[0] - 0xE0, s[1]);
    var u := Join(x, s[2]);
    Digits(u);
    JoinDigits(s[0] - 0xE0, s[1]);
    JoinDigits(x, s[2]);
    assert u / 64 == x && u / 4096 == s[0] - 0xE0;
    assert 0x7FF < u <= 0xFFFF;
  }

  lemma EncodeOfDecode4(s: seq<byte>)
    requires |s| >= 4 && Lead4(s[0], s[1]) && Tail(s[2]) && Tail(s[3])
    ensures Distributed(Join(Join(Join(s[0] - 0xF0, s[1]), s[2]), s[3])) == s[..4]
  {
    var x := Join(s[0] - 0xF0, s[1]);
    var y := Join(x, s[2]);
    var u := Join(y, s[3]);
    Digits(u);
    JoinDigits(s[0] - 0xF0, s[1]);
    JoinDigits(x, s[2]);
    JoinDigits(y, s[3]);
    assert u / 64 == y && u / 4096 == x && u / 0x40000 == s[0] - 0xF0;
    assert 0xFFFF < u <= 0x10FFFF;
  }

  predicate AllScalar(us: seq<nat>) {
    us == [] || (IsScalar(us[0]) && AllScalar(us[1..]))
  }

  function EncodeAll(us: seq<nat>): (bs: seq<byte>)
    requires AllScalar(us)
  {
    if us == [] then [] else Encode(us[0]) + EncodeAll(us[1..])
  }

  function DecodeAll(bs: seq<byte>): (r: Option<seq<nat>>)
    ensures r.Some? ==> AllScalar(r.value)
  {
    if bs == [] then Some([])
    else match DecodeFirst(bs)
      case None => None
      case Some((u, n)) =>
        match DecodeAll(bs[n..])
        case None => None
        case Some(us) => Some([u] + us)
  }

  lemma {:induction false} EncodeAllDecodes(us: seq<nat>)
    requires AllScalar(us)
    ensures DecodeAll(EncodeAll(us)) == Some(us)
  {
    if us != [] {
      var head, tail := Encode(us[0]), EncodeAll(us[1..]);
      DecodeOfEncode(us[0], tail);
      assert EncodeAll(us) == head + tail;
      assert [us[0]] + us[1..] == us;
      assert (head + tail)[|head|..] == tail;
      EncodeAllDecodes(us[1..]);
    }
  }

  lemma {:induction false} DecodeAllEncodes(bs: seq<byte>)
    requires DecodeAll(bs).Some?
    ensures EncodeAll(DecodeAll(bs).value) == bs
  {
    hide Encode, DecodeFirst, Distributed;
    if bs != [] {
      var (u, n) := DecodeFirst(bs).value;
      EncodeOfDecode(bs);
      DecodeAllEncodes(bs[n..]);
      var us := DecodeAll(bs[n..]).value;
      assert ([u] + us)[1..] == us;
      assert bs[..n] + bs[n..] == bs;
    }
  }

  /** Concatenated encodings decode uniquely, and the strict decoder accepts nothing else. */
  lemma DecodingInvertsEncoding(bs: seq<byte>, us: seq<nat>)
    ensures DecodeAll(bs) == Some(us) <==> AllScalar(us) && bs == EncodeAll(us)
  {
    if AllScalar(us) { EncodeAllDecodes(us); }
    if DecodeAll(bs).Some? { DecodeAllEncodes(bs); }
  }

  // ---------------------------------------------------------------- surrogate pairs

  predicate IsHigh(u: int) { 0xD800 <= u <= 0xDBFF }
  predicate IsLow(u: int) { 0xDC00 <= u <= 0xDFFF }

  /** The pair formula of the string parser. */
  function Combine(high: nat, low: nat): nat
    requires IsHigh(high) && IsLow(low)
  {
    Or(Shl(high - 0xD800, 10), low - 0xDC00) + 0x10000
  }

  /** Section 2.1 of RFC 2781: the pair of a scalar value from U+10000 up. */
  function Split(u: nat): (nat, nat)
    requires 0x10000 <= u <= 0x10FFFF
  {
    (0xD800 + (u - 0x10000) / 0x400, 0xDC00 + (u - 0x10000) % 0x400)
  }

  /** Shift and or as arithmetic. */
  lemma CombineIsSum(high: nat, low: nat)
    requires IsHigh(high) && IsLow(low)
    ensures Combine(high, low) == 0x10000 + 0x400 * (high - 0xD800) + (low - 0xDC00)
  {
    assert Pow2(10) == 1024;
    OrDisjoint(high - 0xD800, low - 0xDC00, 10);
  }

  /** The formula stays inside the encoder's range and loses nothing of the pair. */
  lemma CombineIsInjective(high: nat, low: nat)
    requires IsHigh(high) && IsLow(low)
    ensures 0x10000 <= Combine(high, low) <= 0x10FFFF
    ensures Split(Combine(high, low)) == (high, low)
  {
    hide Combine;
    CombineIsSum(high, low);
  }

  lemma CombineIsSurjective(u: nat)
    requires 0x10000 <= u <= 0x10FFFF
    ensures var (high, low) := Split(u); IsHigh(high) && IsLow(low) && Combine(high, low) == u
  {
    hide Combine;
    var (high, low) := Split(u);
    CombineIsSum(high, low);
  }
}
