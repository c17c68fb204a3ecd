/** Well-formed UTF-8 is what encoding Unicode scalar values gives, and nothing else. */
module Unicode {
  import opened ByteStrings

  type Scalar = c: int | 0 <= c < 0xd800 || 0xe000 <= c <= 0x10ffff

  /** The bytes of one scalar value, six bits to each byte but the first. */
  function Encoded(c: Scalar): Bytes {
    if c < 0x80 then [c]
    else if c < 0x800 then [0xc0 + c / 64, 0x80 + c % 64]
    else if c < 0x1_0000 then [0xe0 + c / 64 / 64, 0x80 + c / 64 % 64, 0x80 + c % 64]
    else [0xf0 + c / 64 / 64 / 64, 0x80 + c / 64 / 64 % 64, 0x80 + c / 64 % 64, 0x80 + c % 64]
  }

  function EncodedAll(cs: seq<Scalar>): Bytes {
    if cs == [] then [] else Encoded(cs[0]) + EncodedAll(cs[1..])
  }

  lemma EncodedIsChar(c: Scalar, rest: Bytes)
    ensures CharLength(Encoded(c) + rest) == |Encoded(c)|
  {}

  /** The bits of a continuation byte below those before it. */
  function Below(high: int, b: int): int {
    64 * high + (b - 0x80)
  }

  lemma BelowSplits(high: int, b: Byte)
    requires IsCont(b)
    ensures Below(high, b) / 64 == high && Below(high, b) % 64 == b - 0x80
  {}

  lemma TwoBytes(a: Byte, b: Byte) returns (c: Scalar)
    requires 0xc2 <= a <= 0xdf && IsCont(b)
    ensures Encoded(c) == [a, b]
  {
    var first: int := a;
    c := Below(first - 0xc0, b);
    BelowSplits(first - 0xc0, b);
  }

  lemma ThreeBytes(a: Byte, b: Byte, d: Byte) returns (c: Scalar)
    requires 0xe0 <= a <= 0xef && IsCont(b) && IsCont(d) && (a == 0xe0 ==> b >= 0xa0) && (a == 0xed ==> b <= 0x9f)
    ensures Encoded(c) == [a, b, d]
  {
    var first: int := a;
    var high := Below(first - 0xe0, b);
    c := Below(high, d);
    BelowSplits(first - 0xe0, b);
    BelowSplits(high, d);
  }

  lemma FourBytes(a: Byte, b: Byte, d: Byte, e: Byte) returns (c: Scalar)
    requires 0xf0 <= a <= 0xf4 && IsCont(b) && IsCont(d) && IsCont(e)
    requires (a == 0xf0 ==> b >= 0x90) && (a == 0xf4 ==> b <= 0x8f)
    ensures Encoded(c) == [a, b, d, e]
  {
    var first: int := a;
    var high := Below(first - 0xf0, b);
    var more := Below(high, d);
    c := Below(more, e);
    BelowSplits(first - 0xf0, b);
    BelowSplits(high, d);
    BelowSplits(more, e);
  }

  lemma CharIsEncoded(s: Bytes) returns (c: Scalar)
    requires s != [] && CharLength(s) > 0
    ensures s[..CharLength(s)] == Encoded(c)
  {
    hide Encoded;
    var n := CharLength(s);
    if n == 1 {
      c := s[0];
      OneByte(s[0]);
    } else if n == 2 {
      c := TwoBytes(s[0], s[1]);
    } else if n == 3 {
      c := ThreeBytes(s[0], s[1], s[2]);
    } else {
      c := FourBytes(s[0], s[1], s[2], s[3]);
    }
  }

  lemma OneByte(b: Byte)
    requires b < 0x80
    ensures Encoded(b) == [b]
  {}

  lemma {:induction false} EncodedIsUtf8(cs: seq<Scalar>)
    ensures Utf8(EncodedAll(cs))
  {
    if cs != [] {
      var a, b := Encoded(cs[0]), EncodedAll(cs[1..]);
      EncodedIsChar(cs[0], b);
      EncodedIsUtf8(cs[1..]);
      assert (a + b)[|a|..] == b;
    }
  }

  lemma {:induction false} Utf8IsEncoded(s: Bytes) returns (cs: seq<Scalar>)
    requires Utf8(s)
    ensures EncodedAll(cs) == s
    decreases |s|
  {
    hide CharLength, Encoded;
    if s == [] {
      cs := [];
    } else {
      var n := CharLength(s);
      var c := CharIsEncoded(s);
      var rest := Utf8IsEncoded(s[n..]);
      cs := [c] + rest;
      assert cs[1..] == rest && s == s[..n] + s[n..];
    }
  }

  /** A byte string is UTF-8 exactly if it encodes some scalar values. */
  lemma {:induction false} Utf8ExactlyWhen(s: Bytes)
    ensures Utf8(s) <==> exists cs :: EncodedAll(cs) == s
  {
    if Utf8(s) { var cs := Utf8IsEncoded(s); }
    if cs :| EncodedAll(cs) == s { EncodedIsUtf8(cs); }
  }
}
