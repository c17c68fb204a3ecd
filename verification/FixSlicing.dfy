/** When parsing a buffer slices out of order. */
module FixSlicing {
  import opened Orders
  import opened ByteStrings
  import opened FixWire
  import opened FixEnvelope
  import opened FixTheorems

  /** A `9=` with a separator somewhere behind it. */
  predicate LengthTagAt(bytes: Bytes, i: nat) {
    At9(bytes, i) && SOH in bytes[i + 2..]
  }

  /** The buffer has a length tag and a checksum field, and every length tag lies
      behind every checksum field. */
  ghost predicate Reversed(bytes: Bytes) {
    && (exists i :: 0 <= i < |bytes| && LengthTagAt(bytes, i))
    && (exists c :: 0 <= c < |bytes| && At10(bytes, c))
    && (forall i, c :: 0 <= i < |bytes| && 0 <= c < |bytes| && LengthTagAt(bytes, i) && At10(bytes, c) ==> c < i)
  }

  /** The fields parse, and the three envelope fields are present and numeric. */
  predicate HasEnvelope(bytes: Bytes) {
    var r := ParseFields(bytes, map[]);
    && r.Ok? && 8 in r.value && 9 in r.value && 10 in r.value
    && ParseUnsigned(r.value[9], U64_MAX).Some? && ParseUnsigned(r.value[10], U32_MAX).Some?
  }

  /** Where the forward scan stops: behind the field of the first length tag. */
  lemma {:induction false} ForwardScan(bytes: Bytes, idx: nat) returns (i: nat)
    ensures match BodyStart(bytes, idx)
      case None => forall j :: idx <= j < |bytes| ==> !LengthTagAt(bytes, j)
      case Some(b) =>
        && idx <= i && LengthTagAt(bytes, i) && (forall j :: idx <= j < i ==> !LengthTagAt(bytes, j))
        && i + 2 < b <= |bytes| && bytes[b - 1] == SOH && (forall j :: i + 2 <= j < b - 1 ==> bytes[j] != SOH)
    decreases |bytes| - idx
  {
    i := idx;
    if idx < |bytes| {
      if At9(bytes, idx) {
        var tail := bytes[idx + 2..];
        var k := IndexOf(tail, SOH);
        if k < |tail| {
          assert tail[k] in tail;
          forall j | idx + 2 <= j < idx + 2 + k ensures bytes[j] != SOH { assert bytes[j] == tail[j - (idx + 2)]; }
          return;
        }
      }
      i := ForwardScan(bytes, idx + 1);
    }
  }

  /** Where the backward scan stops: at the last checksum field. */
  lemma {:induction false} BackwardScan(bytes: Bytes, n: nat)
    ensures match ChecksumStart(bytes, n)
      case None => forall j :: 0 <= j < n ==> !At10(bytes, j)
      case Some(c) => c < n && At10(bytes, c) && forall j :: c < j < n ==> !At10(bytes, j)
  {
    if n > 0 && !At10(bytes, n - 1) { BackwardScan(bytes, n - 1); }
  }

  /** The body starts behind a checksum field exactly if its length tag does: what
      ends the length field is the first separator behind the tag, and one stands in
      front of every checksum field. */
  lemma {:induction false} EnvelopeReversed(bytes: Bytes)
    ensures FindEnvelope(bytes) == Err(SliceOutOfOrder) <==> Reversed(bytes)
  {
    hide BodyStart, ChecksumStart, LengthTagAt;
    var i := ForwardScan(bytes, 0);
    BackwardScan(bytes, |bytes|);
    var b, c := BodyStart(bytes, 0), ChecksumStart(bytes, |bytes|);
    if b.Some? && c.Some? {
      TagOrder(bytes, i, b.value, c.value);
      if c.value < i {
        assert Reversed(bytes);
      }
    }
  }

  lemma TagOrder(bytes: Bytes, i: nat, b: nat, c: nat)
    requires LengthTagAt(bytes, i) && At10(bytes, c)
    requires i + 2 < b <= |bytes| && bytes[b - 1] == SOH && forall j :: i + 2 <= j < b - 1 ==> bytes[j] != SOH
    ensures i < |bytes| && (b > c <==> c < i)
  {
    if c > i {
      assert c != i + 1 && c - 1 != i + 1;
      assert bytes[c - 1] == SOH;
    }
  }

  /** The fields and the envelope decide whether parsing gets as far as the slice. */
  lemma {:induction false} SliceIsReached(bytes: Bytes)
    ensures Parse(bytes) == Err(SliceOutOfOrder) <==> HasEnvelope(bytes) && FindEnvelope(bytes) == Err(SliceOutOfOrder)
  {
    FieldErrors(bytes, map[]);
    hide ParseFields, ParseUnsigned, FindEnvelope, Sum;
  }

  /** Parsing slices out of order exactly when the buffer gets as far as the slice
      and its length tags all lie behind its checksum fields. */
  lemma {:induction false} SlicesOutOfOrderExactlyWhen(bytes: Bytes)
    ensures Parse(bytes) == Err(SliceOutOfOrder) <==> HasEnvelope(bytes) && Reversed(bytes)
  {
    hide Parse, HasEnvelope, FindEnvelope, Reversed;
    SliceIsReached(bytes);
    EnvelopeReversed(bytes);
  }

  /** One length tag in front of one checksum field is enough to rule that out. */
  lemma {:induction false} SlicesInOrder(bytes: Bytes, i: nat, c: nat)
    requires LengthTagAt(bytes, i) && At10(bytes, c) && i <= c
    ensures Parse(bytes) != Err(SliceOutOfOrder)
  {
    hide Parse, HasEnvelope;
    SlicesOutOfOrderExactlyWhen(bytes);
  }

  /** Whatever a message holds, parsing its wire form slices in order. */
  lemma WireSlicesInOrder(m: Fields)
    ensures Parse(Wire(m)) != Err(SliceOutOfOrder)
  {
    hide Parse, Field, Decimal, Body, Head, Sum, Begin;
    WireLayout(m);
    var b, d := Field(8, Begin(m)), Decimal(|Body(m)|);
    HeaderShape(d, Body(m));
    TrailerShape(CheckDigits(m));
    var w, n := Wire(m), |Head(m)|;
    assert w == b + ([57, EQUALS] + (d + ([SOH] + Body(m)))) + ([49, 48, EQUALS] + CheckDigits(m) + [SOH]);
    assert w[|b|] == 57 && w[|b| + 1] == EQUALS;
    assert w[n - 1] == SOH && w[n] == 49 && w[n + 1] == 48 && w[n + 2] == EQUALS;
    assert w[|b| + 2..][|d|] == SOH;
    SlicesInOrder(w, |b|, n);
  }

  /** `8=F|10=1|9=5|`, with `|` for the separator. */
  const REVERSED: Bytes := [56, EQUALS, 70, SOH, 49, 48, EQUALS, 49, SOH, 57, EQUALS, 53, SOH]

  lemma ReversedFields()
    ensures ParseFields(REVERSED, map[]) == Ok(map[8 := Ascii([70]), 10 := Ascii([49]), 9 := Ascii([53])])
  {
    hide ParseFields, Utf8;
    var rest1, rest2 := REVERSED[4..], REVERSED[9..];
    var f, one, five := Ascii([70]), Ascii([49]), Ascii([53]);
    var none: Fields := map[];
    TrailerShape(one);
    assert REVERSED == Field(8, f) + rest1 && rest1 == Field(10, one) + rest2 && rest2 == Field(9, five) + [];
    FieldParses(8, f, rest1, none);
    FieldParses(10, one, rest2, none[8 := f]);
    FieldParses(9, five, [], none[8 := f][10 := one]);
    EmptyParses(none[8 := f][10 := one][9 := five]);
  }

  lemma ReversedHasEnvelope()
    ensures HasEnvelope(REVERSED)
  {
    hide ParseFields, Decimal, ParseUnsigned, Utf8;
    ReversedFields();
    OneDigit();
    DecimalParses(1, U32_MAX);
    DecimalParses(5, U64_MAX);
  }

  lemma ReversedIsReversed()
    ensures Reversed(REVERSED)
  {
    assert LengthTagAt(REVERSED, 9) by { assert REVERSED[11..][1] == SOH; }
    assert At10(REVERSED, 4);
  }

  /** A buffer whose envelope fields are all there, in the wrong order. */
  lemma SlicesOutOfOrder()
    ensures Parse(REVERSED) == Err(SliceOutOfOrder)
  {
    hide Parse, HasEnvelope, Reversed;
    ReversedHasEnvelope();
    ReversedIsReversed();
    SlicesOutOfOrderExactlyWhen(REVERSED);
  }

  lemma OneDigit()
    ensures Decimal(1) == [49] && Decimal(5) == [53]
  {}
}
