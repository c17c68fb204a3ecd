/** Bytes, UTF-8, decimal numerals and the integer parsing of the Rust standard library. */
module ByteStrings {
  import opened Orders

  type Byte = x: int | 0 <= x < 256
  type Bytes = seq<Byte>

  /** Position of the first `b`, or the length if there is none. */
  function IndexOf(s: Bytes, b: Byte): (i: nat)
    ensures i <= |s| && (i < |s| ==> s[i] == b)
    ensures forall j :: 0 <= j < i ==> s[j] != b
  {
    if s == [] || s[0] == b then 0 else 1 + IndexOf(s[1..], b)
  }

  lemma {:induction false} IndexOfIs(s: Bytes, b: Byte, i: nat)
    requires i <= |s| && (i < |s| ==> s[i] == b)
    requires forall j :: 0 <= j < i ==> s[j] != b
    ensures IndexOf(s, b) == i
  {
    assert IndexOf(s, b) >= i;
  }

  function Sum(s: Bytes): nat {
    if s == [] then 0 else s[0] + Sum(s[1..])
  }

  lemma {:induction false} SumUpdate(s: Bytes, k: nat, b: Byte)
    requires k < |s|
    ensures Sum(s[k := b]) == Sum(s) - s[k] + b
  {
    if k > 0 {
      assert s[k := b][1..] == s[1..][k - 1 := b];
      SumUpdate(s[1..], k - 1, b);
    } else {
      assert s[k := b][1..] == s[1..];
    }
  }

  // ---------------------------------------------------------------------
  // UTF-8
  // ---------------------------------------------------------------------

  predicate IsCont(b: Byte) {
    0x80 <= b <= 0xbf
  }

  /** Length of the character at the front, or 0 if there is no well-formed one. */
  function CharLength(s: Bytes): (n: nat)
    requires s != []
    ensures n <= |s| && forall j :: 0 < j < n ==> IsCont(s[j])
    ensures s[0] < 0x80 ==> n == 1
  {
    var b := s[0];
    if b < 0x80 then 1
    else if |s| >= 2 && 0xc2 <= b <= 0xdf && IsCont(s[1]) then 2
    else if |s| >= 3 && 0xe0 <= b <= 0xef && IsCont(s[1]) && IsCont(s[2])
            && (b == 0xe0 ==> s[1] >= 0xa0) && (b == 0xed ==> s[1] <= 0x9f) then 3
    else if |s| >= 4 && 0xf0 <= b <= 0xf4 && IsCont(s[1]) && IsCont(s[2]) && IsCont(s[3])
            && (b == 0xf0 ==> s[1] >= 0x90) && (b == 0xf4 ==> s[1] <= 0x8f) then 4
    else 0
  }

  /** The bytes are well-formed UTF-8 (section 3.9 of the Unicode Standard). */
  predicate Utf8(s: Bytes)
    decreases |s|
  {
    s == [] || (CharLength(s) > 0 && Utf8(s[CharLength(s)..]))
  }

  type Text = s: Bytes | Utf8(s) witness []

  /** Behind well-formed text, what follows decides. */
  lemma {:induction false} Utf8Append(a: Text, b: Bytes)
    ensures Utf8(a + b) <==> Utf8(b)
    decreases |a|
  {
    if a == [] {
      assert a + b == b;
    } else {
      var n := CharLength(a);
      assert n > 0;
      assert CharLength(a + b) == n && (a + b)[n..] == a[n..] + b;
      Utf8Append(a[n..], b);
    }
  }

  /** A byte below 0x80 is a character of its own, so text can be cut behind it. */
  lemma {:induction false} Utf8Cut(s: Text, k: nat)
    requires k < |s| && s[k] < 0x80
    ensures Utf8(s[k + 1..])
    decreases |s|
  {
    var n := CharLength(s);
    assert n > 0;
    if k < n {
      assert k == 0;
    } else {
      Utf8Cut(s[n..], k - n);
      assert s[n..][k - n + 1..] == s[k + 1..];
    }
  }

  lemma {:induction false} AsciiIsUtf8(s: Bytes)
    requires forall i :: 0 <= i < |s| ==> s[i] < 0x80
    ensures Utf8(s)
    decreases |s|
  {
    if s != [] { AsciiIsUtf8(s[1..]); }
  }

  function Ascii(s: Bytes): (t: Text)
    requires forall i :: 0 <= i < |s| ==> s[i] < 0x80
    ensures t == s
  {
    AsciiIsUtf8(s);
    s
  }

  // ---------------------------------------------------------------------
  // Decimal numerals
  // ---------------------------------------------------------------------

  predicate IsDigit(b: Byte) {
    48 <= b <= 57
  }

  predicate AllDigits(s: Bytes) {
    forall i :: 0 <= i < |s| ==> IsDigit(s[i])
  }

  function Decimal(n: nat): (s: Text)
    ensures s != [] && AllDigits(s)
  {
    if n < 10 then Ascii([48 + n]) else Ascii(Decimal(n / 10) + [48 + n % 10])
  }

  /** Three digits with leading zeros. */
  function Decimal3(n: nat): (s: Text)
    requires n < 1000
    ensures |s| == 3 && AllDigits(s)
  {
    Ascii([48 + n / 100, 48 + n / 10 % 10, 48 + n % 10])
  }

  function Value(s: Bytes): nat
    requires AllDigits(s)
  {
    if s == [] then 0 else Value(s[..|s| - 1]) * 10 + (s[|s| - 1] - 48)
  }

  /** Parsing an unsigned integer: one leading plus sign is allowed, then at least
      one digit and nothing else, and the value must not exceed `max`. */
  function ParseUnsigned(s: Bytes, max: nat): (r: Option<nat>)
    ensures r.Some? ==> r.value <= max
  {
    var d := if s != [] && s[0] == 43 then s[1..] else s;
    if d != [] && AllDigits(d) && Value(d) <= max then Some(Value(d)) else None
  }

  lemma {:induction false} DecimalValue(n: nat)
    ensures Value(Decimal(n)) == n
  {
    if n >= 10 {
      DecimalValue(n / 10);
      assert Decimal(n)[..|Decimal(n)| - 1] == Decimal(n / 10);
    }
  }

  lemma Decimal3Value(n: nat)
    requires n < 1000
    ensures Value(Decimal3(n)) == n
  {
    hide Utf8;
    var s := Decimal3(n);
    assert s[..2][..1] == s[..1] && s[..1][..0] == [];
    assert Value(s[..1]) == n / 100;
    assert Value(s[..2]) == n / 100 * 10 + n / 10 % 10;
  }

  /** Printing and parsing a number are inverse. */
  lemma {:induction false} DecimalParses(n: nat, max: nat)
    ensures ParseUnsigned(Decimal(n), max) == if n <= max then Some(n) else None
  {
    DecimalValue(n);
    assert IsDigit(Decimal(n)[0]);
  }

  lemma Decimal3Parses(n: nat, max: nat)
    requires n < 1000 <= max
    ensures ParseUnsigned(Decimal3(n), max) == Some(n)
  {
    Decimal3Value(n);
  }
}
