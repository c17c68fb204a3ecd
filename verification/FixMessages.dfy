/** What is sent for a message and what is read back, stated on the message and the
    bytes alone. */
module FixMessages {
  import opened Orders
  import opened ByteStrings
  import opened FixWire
  import opened FixEnvelope
  import opened FixTheorems
  import opened FixFields
  import opened FixAcceptance

  // ---------------------------------------------------------------------
  // What is sent
  // ---------------------------------------------------------------------

  /** The digits of `n` without leading zeros. */
  predicate IsNumeral(s: Bytes, n: int) {
    && s != [] && (forall i :: 0 <= i < |s| ==> 48 <= s[i] <= 57)
    && (|s| > 1 ==> s[0] != 48) && Denotes(s, 0) == n
  }

  /** The begin string sent: that of the message, or `FIX.4.4` if it has none. */
  predicate IsBegin(m: Fields, begin: Bytes) {
    begin == if 8 in m then m[8] else [70, 73, 88, 46, 52, 46, 52]
  }

  /** Tag, equals sign, value and separator for each record in turn. */
  ghost predicate IsSpelled(rs: seq<Record>, bytes: Bytes) {
    if rs == [] then bytes == []
    else
      exists tag: Bytes, rest: Bytes ::
        IsNumeral(tag, rs[0].0) && bytes == tag + [61] + rs[0].1 + [1] + rest && IsSpelled(rs[1..], rest)
  }

  /** The fields of the message but 8, 9 and 10, once each, by ascending tag. */
  ghost predicate IsBody(m: Fields, body: Bytes) {
    exists rs: seq<Record> ::
      && (forall i, j :: 0 <= i < j < |rs| ==> rs[i].0 < rs[j].0)
      && (forall r :: r in rs <==> r.0 in m && r.0 != 8 && r.0 != 9 && r.0 != 10 && r.1 == m[r.0])
      && IsSpelled(rs, body)
  }

  /** Begin string, length of the body, body, and the sum of all that modulo 256 in
      three digits. */
  ghost predicate IsWire(m: Fields, w: Bytes) {
    exists begin: Bytes, length: Bytes, body: Bytes, head: Bytes, sum: Bytes ::
      && IsBegin(m, begin) && IsNumeral(length, |body|) && IsBody(m, body)
      && head == [56, 61] + begin + [1] + ([57, 61] + length + [1] + body)
      && |sum| == 3 && (forall i :: 0 <= i < 3 ==> 48 <= sum[i] <= 57) && Denotes(sum, 0) == ByteSum(head) % 256
      && w == head + [49, 48, 61] + sum + [1]
  }

  lemma {:induction false} DecimalIsNumeral(n: nat)
    ensures IsNumeral(Decimal(n), n)
  {
    DecimalValue(n);
    DenotesValue(Decimal(n));
    NoLeadingZero(n);
    assert forall i :: 0 <= i < |Decimal(n)| ==> IsDigit(Decimal(n)[i]);
  }

  lemma {:induction false} NoLeadingZero(n: nat)
    ensures n > 0 ==> Decimal(n)[0] != 48
    ensures |Decimal(n)| > 1 ==> n > 0
  {
    if n >= 10 { NoLeadingZero(n / 10); }
  }

  lemma {:induction false} EncodeIsSpelled(rs: seq<Record>)
    ensures IsSpelled(rs, Encode(rs))
  {
    hide IsNumeral, Decimal;
    if rs != [] {
      DecimalIsNumeral(rs[0].0);
      EncodeIsSpelled(rs[1..]);
      var tag, rest := Decimal(rs[0].0), Encode(rs[1..]);
      assert Encode(rs) == tag + [61] + rs[0].1 + [1] + rest;
    }
  }

  lemma {:induction false} BodyIsBody(m: Fields)
    ensures IsBody(m, Body(m))
  {
    hide IsSpelled, Body, Encode;
    var rs := BodyByAscendingTag(m);
    EncodeIsSpelled(rs);
  }

  lemma BeginIsBegin(m: Fields)
    ensures IsBegin(m, Begin(m))
  {}

  lemma CheckDigitsAreSum(m: Fields)
    ensures var sum := CheckDigits(m);
      && (forall i :: 0 <= i < 3 ==> 48 <= sum[i] <= 57) && Denotes(sum, 0) == ByteSum(Head(m)) % 256
  {
    SumIsByteSum(Head(m));
    Decimal3Value(Sum(Head(m)) % 256);
    DenotesValue(CheckDigits(m));
    assert forall i :: 0 <= i < 3 ==> IsDigit(CheckDigits(m)[i]);
  }

  lemma WireFields(m: Fields)
    ensures Head(m) == [56, 61] + Begin(m) + [1] + ([57, 61] + Decimal(|Body(m)|) + [1] + Body(m))
    ensures Wire(m) == Head(m) + [49, 48, 61] + CheckDigits(m) + [1]
  {
    hide Body, CheckDigits, Begin, Decimal, Utf8, Encode;
    WireLayout(m);
    HeaderShape(Begin(m), []);
    HeaderShape(Decimal(|Body(m)|), Body(m));
    TrailerShape(CheckDigits(m));
    hide Decimal, Field, Head;
  }

  /** What is serialised is the wire form of the message. */
  lemma WireOutcome(m: Fields)
    ensures IsWire(m, Wire(m))
  {
    hide IsBegin, IsNumeral, IsBody, ByteSum, Denotes, Wire, Head, Body, Decimal, CheckDigits, Begin;
    BeginIsBegin(m);
    DecimalIsNumeral(|Body(m)|);
    BodyIsBody(m);
    CheckDigitsAreSum(m);
    WireFields(m);
  }

  // ---------------------------------------------------------------------
  // What is read back
  // ---------------------------------------------------------------------

  /** No value that is sent holds the separator, and a begin string of the message is
      neither empty nor does it hold the bytes `9=`. */
  predicate IsSendable(m: Fields) {
    && (forall t :: t in m && t != 9 && t != 10 ==> 1 !in m[t])
    && (8 in m ==> m[8] != [] && forall i :: 0 <= i < |m[8]| - 1 ==> !(m[8][i] == 57 && m[8][i + 1] == 61))
  }

  /** `v` is the message with the begin string sent, and tags 9 and 10 filled in. */
  predicate IsReadBack(m: Fields, v: Fields) {
    && v.Keys == m.Keys + {8, 9, 10}
    && IsBegin(m, v[8])
    && (forall t :: t in m && t != 8 && t != 9 && t != 10 ==> v[t] == m[t])
  }

  lemma SendableIsClean(m: Fields)
    ensures IsSendable(m) <==> Clean(m)
  {
    if Clean(m) && 8 in m {
      assert Begin(m) == m[8];
      forall i | 0 <= i < |m[8]| - 1 ensures !(m[8][i] == 57 && m[8][i + 1] == 61) {
        assert !At9(m[8], i);
      }
    }
  }

  lemma NormalIsReadBack(m: Fields)
    ensures IsReadBack(m, Normal(m))
  {
    hide Body, CheckDigits, Decimal, Utf8;
    NormalAgrees(m);
    BeginIsBegin(m);
  }

  lemma {:induction false} ParsedAreTheFields(bytes: Bytes)
    ensures Parse(bytes).Ok? ==> Parse(bytes) == ParseFields(bytes, map[])
  {
    hide ParseFields, ParseUnsigned, FindEnvelope, Sum;
  }

  /** A message is read back, with what was sent at tag 8 and all its other fields as
      they were, if and only if it is sendable. */
  lemma {:induction false} MessageReadsBack(m: Fields)
    requires |Body(m)| <= U64_MAX
    ensures Parse(Wire(m)).Ok? && IsReadBack(m, Parse(Wire(m)).value) <==> IsSendable(m)
  {
    hide Parse, Wire, Body, Normal, Clean, IsReadBack, IsSendable, ParseFields;
    SendableIsClean(m);
    RoundTrip(m);
    NormalIsReadBack(m);
    if Parse(Wire(m)).Ok? && IsReadBack(m, Parse(Wire(m)).value) {
      ParsesOnlyClean(Wire(m));
      ReadBackHasNoSoh(m, Parse(Wire(m)).value);
      ParsedAreTheFields(Wire(m));
      FieldsReadBack(m);
    }
  }

  lemma ReadBackHasNoSoh(m: Fields, v: Fields)
    requires IsReadBack(m, v) && forall t :: t in v ==> SOH !in v[t]
    ensures NoSoh(m)
  {
    hide Utf8;
    assert v[8] == Begin(m);
  }
}
