/** Why the separator in front of the checksum field needs values without separators:
    a message with a second envelope inside a value. */
module FixSeparator {
  import opened Orders
  import opened ByteStrings
  import opened FixWire
  import opened FixEnvelope
  import opened FixTheorems
  import opened FixCorruption

  /** `8=F|9=20|`, with `|` for the separator. */
  const FRONT: Bytes := [56, EQUALS, 70, SOH] + [57, EQUALS, 50, 48, SOH]

  /** `11=a|9=9|` */
  const MIDDLE: Bytes := [49, 49, EQUALS, 97, SOH] + [57, EQUALS, 57, SOH]

  /** The value `a|9=9|10=070|5=b`. */
  const VALUE: Bytes := [97, SOH, 57, EQUALS, 57, SOH] + [49, 48, EQUALS, 48, 55, 48, SOH] + [53, EQUALS, 98]

  /** The buffer with `x` in place of the separator behind that value. */
  function Damaged(ds: Bytes): Bytes {
    FRONT + MIDDLE + Trailer([48, 55, 48], [SOH]) + ([53, EQUALS, 98, 120] + [49, 48, EQUALS] + ds + [SOH])
  }

  lemma SmallNumerals()
    ensures Decimal(5) == [53] && Decimal(8) == [56] && Decimal(9) == [57]
    ensures Decimal(11) == [49, 49] && Decimal(20) == [50, 48]
  {
    assert Decimal(1) == [49] && Decimal(2) == [50];
  }

  // ---------------------------------------------------------------------
  // The message
  // ---------------------------------------------------------------------

  lemma ValueIsText()
    ensures Utf8(VALUE)
  {
    AsciiIsUtf8(VALUE);
  }

  function Message(): (m: Fields)
    ensures m.Keys == {8, 11} && m[8] == [70] && m[11] == VALUE
  {
    ValueIsText();
    map[8 := Ascii([70]), 11 := VALUE]
  }

  lemma MessageHoldsSeparators()
    ensures !NoSoh(Message())
  {
    hide Message, Utf8;
    assert VALUE[1] == SOH && SOH in VALUE;
    assert 11 in Message() && SOH in Message()[11];
  }

  lemma {:induction false} OneTag(t: U32)
    ensures Ascending({t}) == [t]
  {
    assert LeastTag({t}) == t && {t} - {t} == {};
    assert Ascending({}) == [];
  }

  lemma {:induction false} MessageBody(m: Fields, v: Text)
    requires m.Keys == {8, 11} && m[11] == v
    ensures Body(m) == Field(11, v)
  {
    OneTag(11);
    assert m.Keys - {8, 9, 10} == {11};
    hide Ascending, Field;
    var rs := Records(m, [11]);
    assert [11][1..] == [] && Records(m, []) == [];
    assert rs == [(11, v)] && rs[1..] == [];
    assert Encode(rs) == Field(11, v) + [];
  }

  lemma MessageFields()
    ensures Field(11, VALUE) == [49, 49, EQUALS] + VALUE + [SOH] && |Field(11, VALUE)| == 20
    ensures Field(8, [70]) + Field(9, [50, 48]) == FRONT
  {
    hide Decimal;
    SmallNumerals();
  }

  lemma MessageHead()
    ensures Head(Message()) == FRONT + ([49, 49, EQUALS] + VALUE + [SOH])
  {
    hide Encode, Body, Utf8, Decimal, Field, Head, Message;
    var m := Message();
    MessageBody(m, VALUE);
    WireLayout(m);
    MessageFields();
    SmallNumerals();
  }

  lemma DamagedWire(head: Bytes, ds: Bytes)
    requires head == FRONT + ([49, 49, EQUALS] + VALUE + [SOH])
    ensures |head| == 29 && head[28] == SOH
    ensures (head + Field(10, ds))[28 := 120] == Damaged(ds)
  {
    TrailerShape(ds);
    hide Field;
  }

  // ---------------------------------------------------------------------
  // Its damaged wire form
  // ---------------------------------------------------------------------

  lemma {:induction false} SumAppend(a: Bytes, b: Bytes)
    ensures Sum(a + b) == Sum(a) + Sum(b)
  {
    if a == [] {
      assert a + b == b;
    } else {
      assert (a + b)[1..] == a[1..] + b;
      SumAppend(a[1..], b);
    }
  }

  lemma {:induction false} SumOfFour(a: Byte, b: Byte, c: Byte, d: Byte)
    ensures Sum([a, b, c, d]) == (a as int) + b + c + d
  {
    assert [a, b, c, d][1..] == [b, c, d] && [b, c, d][1..] == [c, d] && [c, d][1..] == [d] && [d][1..] == [];
    assert Sum([d]) == d;
    assert Sum([c, d]) == Sum([d]) + c;
  }

  lemma {:induction false} SumOfFive(a: Byte, b: Byte, c: Byte, d: Byte, e: Byte)
    ensures Sum([a, b, c, d, e]) == (a as int) + b + c + d + e
  {
    assert [a, b, c, d, e][1..] == [b, c, d, e];
    SumOfFour(b, c, d, e);
  }

  lemma InnerSum()
    ensures Sum(FRONT + MIDDLE) % 256 == 70
  {
    hide Sum;
    SumAppend(FRONT, MIDDLE);
    SumAppend([56, EQUALS, 70, SOH], [57, EQUALS, 50, 48, SOH]);
    SumAppend([49, 49, EQUALS, 97, SOH], [57, EQUALS, 57, SOH]);
    SumOfFour(56, EQUALS, 70, SOH);
    SumOfFive(57, EQUALS, 50, 48, SOH);
    SumOfFive(49, 49, EQUALS, 97, SOH);
    SumOfFour(57, EQUALS, 57, SOH);
  }

  lemma InnerBodyStart(ds: Bytes)
    ensures BodyStart(Damaged(ds), 0) == Some(9)
  {
    hide BodyStart, Decimal;
    SmallNumerals();
    var rest := MIDDLE + Trailer([48, 55, 48], [SOH]) + ([53, EQUALS, 98, 120] + [49, 48, EQUALS] + ds + [SOH]);
    BodyFoundBehindLength([70], [50, 48], rest);
    assert Damaged(ds) == Field(8, [70]) + (Field(9, [50, 48]) + rest);
  }

  /** Of the two checksum tags only the first stands behind a separator. */
  lemma OnlyInnerTrailer(ds: Bytes, j: nat)
    requires |ds| == 3 && AllDigits(ds) && 18 < j
    ensures var w := Damaged(ds); |w| == 36 && At10(w, 18) && !At10(w, j)
  {
    var w := Damaged(ds);
    assert forall i :: 0 <= i < 3 ==> w[32 + i] == ds[i] && IsDigit(ds[i]);
  }

  lemma InnerEnvelope(ds: Bytes)
    requires |ds| == 3 && AllDigits(ds)
    ensures FindEnvelope(Damaged(ds)) == Ok(Envelope(9, 18)) && Damaged(ds)[..18] == FRONT + MIDDLE
  {
    InnerFront(ds);
    hide BodyStart, ChecksumStart, Damaged;
    var w := Damaged(ds);
    InnerBodyStart(ds);
    OnlyInnerTrailer(ds, 19);
    forall j | 18 < j < |w| ensures !At10(w, j) { OnlyInnerTrailer(ds, j); }
    ChecksumStartIs(w, |w|, 18);
  }

  lemma InnerFront(ds: Bytes)
    requires |ds| == 3
    ensures |Damaged(ds)| == 36 && Damaged(ds)[..18] == FRONT + MIDDLE
  {}

  /** What the damaged buffer's fields are: the inner envelope has replaced the outer. */
  function InnerFields(last: Text): Fields {
    map[8 := Ascii([70]), 9 := Ascii([57]), 11 := Ascii([97]), 10 := Ascii([48, 55, 48]), 5 := last]
  }

  lemma {:induction false} InnerFieldsParse(last: Text)
    requires SOH !in last
    ensures ParseFields(Field(8, [70]) + (Field(9, [50, 48]) + (Field(11, [97]) + (Field(9, [57]) +
              (Field(10, [48, 55, 48]) + (Field(5, last) + []))))), map[]) == Ok(InnerFields(last))
  {
    hide ParseFields, Field, Utf8;
    var f5 := Field(5, last) + [];
    var f10 := Field(10, [48, 55, 48]) + f5;
    var f9 := Field(9, [57]) + f10;
    var f11 := Field(11, [97]) + f9;
    var none: Fields := map[];
    var m8 := none[8 := Ascii([70])];
    var m9 := m8[9 := Ascii([50, 48])];
    var m11 := m9[11 := Ascii([97])];
    var n9 := m11[9 := Ascii([57])];
    var m10 := n9[10 := Ascii([48, 55, 48])];
    FieldParses(8, Ascii([70]), Field(9, [50, 48]) + f11, none);
    FieldParses(9, Ascii([50, 48]), f11, m8);
    FieldParses(11, Ascii([97]), f9, m9);
    FieldParses(9, Ascii([57]), f10, m11);
    FieldParses(10, Ascii([48, 55, 48]), f5, n9);
    FieldParses(5, last, [], m10);
    EmptyParses(m10[5 := last]);
    assert m10[5 := last] == InnerFields(last);
  }

  lemma DamagedFields(ds: Bytes) returns (last: Text)
    requires |ds| == 3 && AllDigits(ds)
    ensures ParseFields(Damaged(ds), map[]) == Ok(InnerFields(last))
  {
    hide ParseFields, Damaged, Utf8;
    DigitsAreClean(ds);
    last := Ascii([98, 120, 49, 48, EQUALS] + ds);
    InnerFieldsParse(last);
    DamagedByFields(ds, last);
  }

  lemma DamagedByFields(ds: Bytes, last: Bytes)
    requires last == [98, 120, 49, 48, EQUALS] + ds
    ensures Damaged(ds) == Field(8, [70]) + (Field(9, [50, 48]) + (Field(11, [97]) + (Field(9, [57]) +
              (Field(10, [48, 55, 48]) + (Field(5, last) + [])))))
  {
    hide Field, Trailer;
    ShortFields();
    LastField(ds);
    TrailerShape([48, 55, 48]);
    Regroup([56, EQUALS, 70, SOH], [57, EQUALS, 50, 48, SOH], [49, 49, EQUALS, 97, SOH], [57, EQUALS, 57, SOH],
      Field(10, [48, 55, 48]), Field(5, last));
  }

  lemma ShortFields()
    ensures Field(8, [70]) == [56, EQUALS, 70, SOH] && Field(9, [50, 48]) == [57, EQUALS, 50, 48, SOH]
    ensures Field(11, [97]) == [49, 49, EQUALS, 97, SOH] && Field(9, [57]) == [57, EQUALS, 57, SOH]
  {
    hide Decimal;
    SmallNumerals();
  }

  lemma LastField(ds: Bytes)
    ensures Field(5, [98, 120, 49, 48, EQUALS] + ds) == [53, EQUALS, 98, 120] + [49, 48, EQUALS] + ds + [SOH]
  {
    hide Decimal;
    SmallNumerals();
  }

  lemma Regroup(a: Bytes, b: Bytes, c: Bytes, d: Bytes, e: Bytes, f: Bytes)
    ensures (a + b) + (c + d) + e + f == a + (b + (c + (d + (e + (f + [])))))
  {}

  lemma DamagedParses(ds: Bytes) returns (last: Text)
    requires |ds| == 3 && AllDigits(ds)
    ensures Parse(Damaged(ds)) == Ok(InnerFields(last))
  {
    hide Parse, ParseFields, FindEnvelope, Damaged, Sum, Utf8, Decimal, Decimal3, Value, AllDigits;
    last := DamagedFields(ds);
    InnerEnvelope(ds);
    InnerSum();
    InnerNumerals();
    ChecksumDecides(Damaged(ds), InnerFields(last), Envelope(9, 18));
  }

  lemma InnerNumerals()
    ensures ParseUnsigned([57], U64_MAX) == Some(9) && ParseUnsigned([48, 55, 48], U32_MAX) == Some(70)
  {
    hide ParseUnsigned, Decimal;
    SmallNumerals();
    DecimalParses(9, U64_MAX);
    Decimal3Parses(70, U32_MAX);
  }

  /** A message whose value holds a second envelope: when the separator in front of its
      checksum field is lost, its wire form still parses, to another message. */
  lemma SeparatorNeedsCleanValues() returns (m: Fields, x: Byte)
    ensures !NoSoh(m) && Head(m) != [] && x != Wire(m)[|Head(m)| - 1]
    ensures var r := Parse(Wire(m)[|Head(m)| - 1 := x]); r.Ok? && 5 in r.value && 5 !in m
  {
    hide Parse, Head, CheckDigits, Damaged, Utf8, Message, NoSoh, AllDigits, Field;
    m, x := Message(), 120;
    MessageHoldsSeparators();
    MessageHead();
    DamagedWire(Head(m), CheckDigits(m));
    var last := DamagedParses(CheckDigits(m));
  }
}
