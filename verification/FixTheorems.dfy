/** When parsing undoes serialising. */
module FixTheorems {
  import opened Orders
  import opened ByteStrings
  import opened FixWire
  import opened FixEnvelope

  // ---------------------------------------------------------------------
  // Fields one at a time
  // ---------------------------------------------------------------------

  lemma {:induction false} FieldShape(t: U32, v: Bytes, rest: Bytes)
    requires SOH !in v
    ensures var k := |Decimal(t)| + 1 + |v|;
      && IndexOf(Field(t, v) + rest, SOH) == k < |Field(t, v) + rest|
      && (Field(t, v) + rest)[..k] == Decimal(t) + [EQUALS] + v
      && (Field(t, v) + rest)[k + 1..] == rest
  {
    var bytes, chunk := Field(t, v) + rest, Decimal(t) + [EQUALS] + v;
    assert bytes == chunk + ([SOH] + rest);
    forall j | 0 <= j < |chunk| ensures bytes[j] != SOH {
      assert bytes[j] == chunk[j];
      if j < |Decimal(t)| { assert IsDigit(Decimal(t)[j]); }
    }
    IndexOfIs(bytes, SOH, |chunk|);
  }

  lemma {:induction false} ChunkParses(t: U32, v: Text, acc: Fields)
    ensures ParseChunk(Decimal(t) + [EQUALS] + v, acc) == Ok(acc[t := v])
  {
    hide Decimal, Utf8, IndexOf, ParseUnsigned;
    var d := Decimal(t);
    var chunk := d + [EQUALS] + v;
    Utf8Append(Ascii(d + [EQUALS]), v);
    forall j | 0 <= j < |d| ensures chunk[j] != EQUALS {
      assert chunk[j] == d[j] && IsDigit(d[j]);
    }
    IndexOfIs(chunk, EQUALS, |d|);
    assert chunk[..|d|] == d && chunk[|d| + 1..] == v;
    DecimalParses(t, U32_MAX);
  }

  /** A serialised field whose value has no SOH is read back as written. */
  lemma {:induction false} FieldParses(t: U32, v: Text, rest: Bytes, acc: Fields)
    requires SOH !in v
    ensures ParseFields(Field(t, v) + rest, acc) == ParseFields(rest, acc[t := v])
  {
    hide Decimal, IndexOf, ParseChunk, Field, ParseFields;
    FieldShape(t, v, rest);
    ChunkParses(t, v, acc);
    FirstChunk(Field(t, v) + rest, acc);
  }

  /** Parsing deals with the chunk up to the first separator and goes on behind it. */
  lemma {:induction false} FirstChunk(bytes: Bytes, acc: Fields)
    ensures var k := IndexOf(bytes, SOH); var r := ParseChunk(bytes[..k], acc);
      ParseFields(bytes, acc) == if r.Err? || k == |bytes| then r else ParseFields(bytes[k + 1..], r.value)
  {}

  lemma {:induction false} EmptyParses(acc: Fields)
    ensures ParseFields([], acc) == Ok(acc)
  {}

  function PutAll(acc: Fields, rs: seq<Record>): Fields
    decreases |rs|
  {
    if rs == [] then acc else PutAll(acc[rs[0].0 := rs[0].1], rs[1..])
  }

  lemma {:induction false} EncodeParses(rs: seq<Record>, rest: Bytes, acc: Fields)
    requires CleanRecords(rs)
    ensures ParseFields(Encode(rs) + rest, acc) == ParseFields(rest, PutAll(acc, rs))
    decreases |rs|
  {
    hide ParseFields, Field;
    if rs == [] {
      assert Encode(rs) + rest == rest;
    } else {
      assert Encode(rs) + rest == Field(rs[0].0, rs[0].1) + (Encode(rs[1..]) + rest);
      FieldParses(rs[0].0, rs[0].1, Encode(rs[1..]) + rest, acc);
      EncodeParses(rs[1..], rest, acc[rs[0].0 := rs[0].1]);
    }
  }

  lemma {:induction false} PutAllRecords(acc: Fields, m: Fields, ts: seq<U32>)
    requires forall t :: t in ts ==> t in m
    ensures var r := PutAll(acc, Records(m, ts));
      && (forall t :: t in r <==> t in acc || t in ts)
      && (forall t :: t in r ==> r[t] == if t in ts then m[t] else acc[t])
    decreases |ts|
  {
    if ts != [] {
      PutAllRecords(acc[ts[0] := m[ts[0]]], m, ts[1..]);
      assert forall t :: t in ts <==> t == ts[0] || t in ts[1..];
    }
  }

  lemma {:induction false} RecordsAreClean(m: Fields, ts: seq<U32>)
    requires forall t :: t in ts ==> t in m && SOH !in m[t]
    ensures CleanRecords(Records(m, ts))
  {
    if ts != [] { RecordsAreClean(m, ts[1..]); }
  }

  lemma {:induction false} RecordAt(m: Fields, ts: seq<U32>, i: nat)
    requires i < |ts|
    ensures |Records(m, ts)| == |ts| && Records(m, ts)[i] == (ts[i], ValueOf(m, ts[i]))
  {
    if |ts| > 1 { RecordAt(m, ts[1..], if i > 0 then i - 1 else 0); }
  }

  /** The body holds every field of the message but 8, 9 and 10, once each, by
      ascending tag. */
  lemma {:induction false} BodyByAscendingTag(m: Fields) returns (rs: seq<Record>)
    ensures Body(m) == Encode(rs)
    ensures forall i, j :: 0 <= i < j < |rs| ==> rs[i].0 < rs[j].0
    ensures forall r :: r in rs <==> r.0 in m && r.0 !in {8, 9, 10} && r.1 == m[r.0]
  {
    hide Ascending, Records, Encode;
    var ts := BodyTags(m);
    rs := Records(m, ts);
    AscendingIsSorted(m.Keys - {8, 9, 10});
    forall i | 0 <= i < |ts| ensures |rs| == |ts| && rs[i] == (ts[i], ValueOf(m, ts[i])) {
      RecordAt(m, ts, i);
    }
    NoRecords(m, ts);
    forall r: Record ensures r in rs <==> r.0 in m && r.0 !in {8, 9, 10} && r.1 == m[r.0] {
      if r.0 in ts {
        var i :| 0 <= i < |ts| && ts[i] == r.0;
        assert rs[i].0 == r.0;
      }
    }
  }

  lemma {:induction false} NoRecords(m: Fields, ts: seq<U32>)
    ensures ts == [] ==> Records(m, ts) == []
  {}

  // ---------------------------------------------------------------------
  // Reading back a serialised message
  // ---------------------------------------------------------------------

  /** No serialised value holds the field separator. Tags 9 and 10 are recomputed,
      so what the message holds there does not matter. */
  predicate NoSoh(m: Fields) {
    SOH !in Begin(m) && forall t :: t in m && t !in {8, 9, 10} ==> SOH !in m[t]
  }

  /** The message with its envelope filled in around checksum field `v`. */
  function Enveloped(m: Fields, v: Text): Fields {
    WithEnvelope(m, Begin(m), Decimal(|Body(m)|), v)
  }

  function WithEnvelope(m: Fields, begin: Text, length: Text, check: Text): Fields {
    m[8 := begin][9 := length][10 := check]
  }

  /** The message with the envelope that serialising gives it. */
  function Normal(m: Fields): Fields {
    Enveloped(m, CheckDigits(m))
  }

  lemma HeadIsClean(m: Fields)
    requires NoSoh(m)
    ensures CleanRecords(HeadRecords(m))
  {
    RecordsAreClean(m, BodyTags(m));
    NumeralsAreClean(|Body(m)|);
    EnvelopeIsClean((8, Begin(m)), (9, Decimal(|Body(m)|)), Records(m, BodyTags(m)));
  }

  lemma EnvelopeIsClean(a: Record, b: Record, rs: seq<Record>)
    requires SOH !in a.1 && SOH !in b.1 && CleanRecords(rs)
    ensures CleanRecords([a, b] + rs)
  {}

  lemma {:induction false} NumeralsAreClean(n: nat)
    ensures SOH !in Decimal(n) && EQUALS !in Decimal(n)
  {
    forall i | 0 <= i < |Decimal(n)| ensures Decimal(n)[i] != SOH && Decimal(n)[i] != EQUALS {
      assert IsDigit(Decimal(n)[i]);
    }
  }

  lemma DigitsAreClean(ds: Bytes)
    requires AllDigits(ds)
    ensures SOH !in ds && EQUALS !in ds
  {}

  lemma CheckDigitsAreClean(m: Fields)
    ensures SOH !in CheckDigits(m)
  {
    DigitsAreClean(CheckDigits(m));
  }

  /** Field errors never stand for a slice. */
  lemma {:induction false} FieldErrors(bytes: Bytes, acc: Fields)
    ensures var r := ParseFields(bytes, acc); r.Err? ==> r.error != SliceOutOfOrder
    decreases |bytes|
  {
    hide ParseUnsigned;
    var k := IndexOf(bytes, SOH);
    var r := ParseChunk(bytes[..k], acc);
    if r.Ok? && k < |bytes| { FieldErrors(bytes[k + 1..], r.value); }
  }

  /** What may stand where the separator of the last field belongs without changing
      the fields: the separator, nothing, or an empty field on top. */
  predicate Ends(tail: Bytes) {
    tail == [] || tail == [SOH] || tail == [SOH, SOH]
  }

  lemma {:induction false} TrailerParses(v: Text, tail: Bytes, acc: Fields)
    requires SOH !in v && Ends(tail)
    ensures ParseFields(Trailer(v, tail), acc) == Ok(acc[10 := v])
  {
    TrailerShape(v);
    EmptyParses(acc[10 := v]);
    if tail == [] {
      ChunkParses(10, v, acc);
      var w := Decimal(10) + [EQUALS] + v;
      assert w + [SOH] == Field(10, v) && Trailer(v, []) + [SOH] == Trailer(v, [SOH]);
      assert w == Trailer(v, []) by { assert (w + [SOH])[..|w|] == w; }
      assert SOH !in w by { NumeralsAreClean(10); }
      IndexOfIs(w, SOH, |w|);
      hide ParseFields, ParseChunk, IndexOf;
      FirstChunk(w, acc);
      assert w[..|w|] == w;
    } else {
      FieldParses(10, v, tail[1..], acc);
      assert Trailer(v, tail) == Field(10, v) + tail[1..];
      if tail == [SOH, SOH] {
        assert tail[1..] == [SOH] && [SOH][1..] == [];
        IndexOfIs([SOH], SOH, 0);
        FirstChunk([SOH], acc[10 := v]);
      }
    }
  }

  /** Without separators in the values, the fields read back are the message with its
      envelope, whatever the checksum field holds. */
  lemma {:induction false} FieldsReadBackWith(m: Fields, v: Text, tail: Bytes)
    requires NoSoh(m) && SOH !in v && Ends(tail)
    ensures ParseFields(Head(m) + Trailer(v, tail), map[]) == Ok(Enveloped(m, v))
  {
    HeadIsClean(m);
    hide Body, CheckDigits, Encode, Decimal, Field, ParseFields, PutAll, HeadRecords, Ascending, Trailer;
    var acc := PutAll(map[], HeadRecords(m));
    EncodeParses(HeadRecords(m), Trailer(v, tail), map[]);
    TrailerParses(v, tail, acc);
    HeadPutsAll(m);
    EnvelopeOnTop(m, acc, Begin(m), Decimal(|Body(m)|), v);
  }

  lemma {:induction false} FieldsReadBack(m: Fields)
    requires NoSoh(m)
    ensures ParseFields(Wire(m), map[]) == Ok(Normal(m))
  {
    hide Head, Body, ParseFields, NoSoh, CheckDigits;
    CheckDigitsAreClean(m);
    FieldsReadBackWith(m, CheckDigits(m), [SOH]);
    TrailerShape(CheckDigits(m));
  }

  lemma EnvelopeOnTop(m: Fields, acc: Fields, begin: Text, length: Text, check: Text)
    requires forall t :: t in acc <==> t == 8 || t == 9 || (t in m && t != 10)
    requires forall t :: t in acc && t != 10 ==> acc[t] == if t == 8 then begin else if t == 9 then length else m[t]
    ensures acc[10 := check] == WithEnvelope(m, begin, length, check)
  {}

  lemma HeadPutsAll(m: Fields)
    ensures var acc := PutAll(map[], HeadRecords(m));
      && (forall t :: t in acc <==> t == 8 || t == 9 || (t in m && t != 10))
      && (forall t :: t in acc ==> acc[t] == if t == 8 then Begin(m) else if t == 9 then Decimal(|Body(m)|) else m[t])
  {
    hide Body, PutAll, Decimal, Ascending, Utf8;
    var two: Fields := map[8 := Begin(m), 9 := Decimal(|Body(m)|)];
    HeadPuts(m, two);
    PutAllRecords(two, m, BodyTags(m));
    assert forall t :: t in BodyTags(m) <==> t in m && t != 8 && t != 9 && t != 10;
  }

  lemma {:induction false} HeadPuts(m: Fields, two: Fields)
    requires two == map[8 := Begin(m), 9 := Decimal(|Body(m)|)]
    ensures PutAll(map[], HeadRecords(m)) == PutAll(two, Records(m, BodyTags(m)))
  {
    var rs := HeadRecords(m);
    assert rs[1..][1..] == Records(m, BodyTags(m));
    var none: Fields := map[];
    assert none[8 := Begin(m)][9 := Decimal(|Body(m)|)] == two;
  }

  // ---------------------------------------------------------------------
  // The envelope of a serialised message
  // ---------------------------------------------------------------------

  lemma HeaderShape(b: Bytes, rest: Bytes)
    ensures Field(8, b) == [56, EQUALS] + b + [SOH]
    ensures Field(9, b) + rest == [57, EQUALS] + (b + ([SOH] + rest))
  {
    assert Field(9, b) == [57, EQUALS] + b + [SOH];
  }

  /** With no `9=` in the begin string, the body starts right behind the length field. */
  lemma {:induction false} BodyFoundBehindLength(b: Bytes, d: Bytes, rest: Bytes)
    requires SOH !in b && SOH !in d && forall i :: 0 <= i < |b| ==> !At9(b, i)
    ensures BodyStart(Field(8, b) + (Field(9, d) + rest), 0) == Some(|Field(8, b)| + |Field(9, d)|)
  {
    HeaderShape(b, rest);
    HeaderShape(d, rest);
    var w := [56, EQUALS] + b + [SOH] + ([57, EQUALS] + (d + ([SOH] + rest)));
    var i := |b| + 3;
    forall j | 0 <= j < i ensures !At9(w, j) {
      if 2 <= j < |b| + 1 {
        assert w[j] == b[j - 2] && (j < |b| + 1 ==> j - 1 < |b| ==> w[j + 1] == b[j - 1]);
        assert !At9(b, j - 2);
      }
    }
    BodyStartSkips(w, 0, i);
    assert forall j :: i + 2 <= j < i + 2 + |d| ==> w[j] == d[j - (i + 2)];
    assert At9(w, i) && w[i + 2 + |d|] == SOH;
    BodyStartHere(w, i, i + 2 + |d|);
    assert w == Field(8, b) + (Field(9, d) + rest);
  }

  /** With a `9=` in the begin string, the scan stops there and takes the length
      field for part of the body. */
  lemma {:induction false} BodyFoundTooEarly(b: Bytes, rest: Bytes, i: nat)
    requires SOH !in b && At9(b, i) && forall j :: 0 <= j < i ==> !At9(b, j)
    ensures BodyStart(Field(8, b) + rest, 0) == Some(|Field(8, b)|)
  {
    HeaderShape(b, rest);
    var w := [56, EQUALS] + b + [SOH] + rest;
    forall j | 0 <= j < i + 2 ensures !At9(w, j) {
      if j >= 2 {
        assert w[j] == b[j - 2] && w[j + 1] == b[j - 1];
        assert !At9(b, j - 2);
      }
    }
    BodyStartSkips(w, 0, i + 2);
    assert w[i + 2] == b[i] && w[i + 3] == b[i + 1];
    assert forall j :: i + 4 <= j < |b| + 2 ==> w[j] == b[j - 2];
    BodyStartHere(w, i + 2, |b| + 2);
  }

  // ---------------------------------------------------------------------
  // Round trip
  // ---------------------------------------------------------------------

  /** The scan for the body length is not anchored to a field start, so the begin
      string must not hold its tag. */
  predicate NoLengthTag(b: Bytes) {
    forall i :: 0 <= i < |b| ==> !At9(b, i)
  }

  /** What a caller can check before serialising. */
  predicate Clean(m: Fields) {
    NoSoh(m) && Begin(m) != [] && NoLengthTag(Begin(m))
  }

  /** The scans on a buffer laid out as begin string, length, body and checksum. */
  lemma EnvelopeOf(b: Bytes, d: Bytes, body: Bytes, v: Bytes, tail: Bytes, head: Bytes)
    requires SOH !in b && SOH !in d && SOH !in v && |tail| <= 2
    requires head == Field(8, b) + (Field(9, d) + body) && EndsWithSoh(head)
    ensures FindEnvelope(head + Trailer(v, tail)) ==
            Ok(Envelope(|Field(8, b)| + (if NoLengthTag(b) then |Field(9, d)| else 0), |head|))
    ensures (head + Trailer(v, tail))[..|head|] == head
  {
    TrailerIsFound(head, v, tail);
    hide Field, BodyStart, ChecksumStart, Trailer;
    var rest := body + Trailer(v, tail);
    var w := Field(8, b) + (Field(9, d) + rest);
    assert head + Trailer(v, tail) == w;
    if NoLengthTag(b) {
      BodyFoundBehindLength(b, d, rest);
    } else {
      var i := FirstLengthTag(b, 0);
      BodyFoundTooEarly(b, Field(9, d) + rest, i);
    }
  }

  lemma BeginIsClean(m: Fields)
    requires NoSoh(m)
    ensures SOH !in Begin(m)
  {}

  lemma EnvelopeFound(m: Fields, v: Bytes, tail: Bytes)
    requires NoSoh(m) && SOH !in v && |tail| <= 2
    ensures var b, d := Field(8, Begin(m)), Field(9, Decimal(|Body(m)|));
      FindEnvelope(Head(m) + Trailer(v, tail)) ==
      Ok(Envelope(|b| + (if NoLengthTag(Begin(m)) then |d| else 0), |Head(m)|))
    ensures (Head(m) + Trailer(v, tail))[..|Head(m)|] == Head(m)
  {
    hide Field, Decimal, Body, Head, FindEnvelope, NoSoh, Begin, EndsWithSoh, NoLengthTag, Trailer;
    BeginIsClean(m);
    WireLayout(m);
    NumeralsAreClean(|Body(m)|);
    EnvelopeOf(Begin(m), Decimal(|Body(m)|), Body(m), v, tail, Head(m));
  }

  lemma {:induction false} FirstLengthTag(b: Bytes, from: nat) returns (i: nat)
    requires from <= |b| && !NoLengthTag(b) && forall j :: 0 <= j < from ==> !At9(b, j)
    ensures i < |b| && At9(b, i) && forall j :: 0 <= j < i ==> !At9(b, j)
    decreases |b| - from
  {
    i := from;
    if from < |b| && !At9(b, from) { i := FirstLengthTag(b, from + 1); }
  }

  lemma ChunkKeepsClean(chunk: Bytes, acc: Fields)
    requires SOH !in chunk && forall t :: t in acc ==> SOH !in acc[t]
    ensures var r := ParseChunk(chunk, acc); r.Ok? ==> forall t :: t in r.value ==> SOH !in r.value[t]
  {
    hide ParseUnsigned;
    var k := IndexOf(chunk, EQUALS);
    if k < |chunk| { assert forall b :: b in chunk[k + 1..] ==> b in chunk; }
  }

  lemma {:induction false} ParsedValuesAreClean(bytes: Bytes, acc: Fields)
    requires forall t :: t in acc ==> SOH !in acc[t]
    ensures var r := ParseFields(bytes, acc); r.Ok? ==> forall t :: t in r.value ==> SOH !in r.value[t]
    decreases |bytes|
  {
    hide ParseChunk;
    var k := IndexOf(bytes, SOH);
    ChunkKeepsClean(bytes[..k], acc);
    var r := ParseChunk(bytes[..k], acc);
    if r.Ok? && k < |bytes| {
      ParsedValuesAreClean(bytes[k + 1..], r.value);
      assert ParseFields(bytes, acc) == ParseFields(bytes[k + 1..], r.value);
    }
  }

  lemma ParsesOnlyClean(bytes: Bytes)
    ensures Parse(bytes).Ok? ==> forall t :: t in Parse(bytes).value ==> SOH !in Parse(bytes).value[t]
  {
    ParsedValuesAreClean(bytes, map[]);
    hide ParseFields, ParseUnsigned, FindEnvelope, Sum;
    if Parse(bytes).Ok? {
      assert Parse(bytes).value == ParseFields(bytes, map[]).value;
    }
  }

  lemma CleanNormalMeansNoSoh(m: Fields)
    requires forall t :: t in Normal(m) ==> SOH !in Normal(m)[t]
    ensures NoSoh(m)
  {
    hide Body, CheckDigits, Decimal;
    var v := Normal(m);
    assert v[8] == Begin(m);
    forall t | t in m && t !in {8, 9, 10} ensures SOH !in m[t] {
      assert v[t] == m[t];
    }
  }

  /** Parsing the wire form gives back the message with its envelope exactly when
      the message is clean. */
  lemma RoundTrip(m: Fields)
    requires |Body(m)| <= U64_MAX
    ensures Parse(Wire(m)) == Ok(Normal(m)) <==> Clean(m)
  {
    hide Parse, Wire, NoSoh, Normal;
    if NoSoh(m) {
      ReadBackVerifies(m);
    } else if Parse(Wire(m)) == Ok(Normal(m)) {
      ParsesOnlyClean(Wire(m));
      CleanNormalMeansNoSoh(m);
    }
  }

  lemma {:induction false} ParseGoesOn(bytes: Bytes, v: Fields, len: nat, sum: nat)
    requires ParseFields(bytes, map[]) == Ok(v) && 8 in v && 9 in v && 10 in v
    requires ParseUnsigned(v[9], U64_MAX) == Some(len) && ParseUnsigned(v[10], U32_MAX) == Some(sum)
    ensures Parse(bytes) == Verify(bytes, v, len, sum)
  {}

  lemma NormalEnvelope(m: Fields)
    ensures var v := Normal(m); 8 in v && 9 in v && 10 in v
    ensures var v := Normal(m); v[8] == Begin(m) && v[9] == Decimal(|Body(m)|) && v[10] == Decimal3(Sum(Head(m)) % 256)
  {
    hide Body, Head, Decimal, Decimal3, Sum;
  }

  lemma ReadBackVerifies(m: Fields)
    requires NoSoh(m) && |Body(m)| <= U64_MAX
    ensures Parse(Wire(m)) == Ok(Normal(m)) <==> Begin(m) != [] && NoLengthTag(Begin(m))
  {
    FieldsReadBack(m);
    CheckDigitsAreClean(m);
    EnvelopeFound(m, CheckDigits(m), [SOH]);
    TrailerShape(CheckDigits(m));
    WireLayout(m);
    DecimalParses(|Body(m)|, U64_MAX);
    Decimal3Parses(Sum(Head(m)) % 256, U32_MAX);
    NormalEnvelope(m);
    hide Field, Decimal, Head, Body, Wire, FindEnvelope, ParseFields, Parse, ParseUnsigned, Decimal3, NoSoh, Sum,
      Normal, CheckDigits, NoLengthTag;
    ParseGoesOn(Wire(m), Normal(m), |Body(m)|, Sum(Head(m)) % 256);
    FieldIsNotEmpty(9, Decimal(|Body(m)|));
  }

  lemma FieldIsNotEmpty(t: U32, v: Bytes)
    ensures |Field(t, v)| > 0
  {}

  /** A begin string of "9=" is not read back: the length scan starts in it. */
  lemma RoundTripFails() returns (m: Fields)
    ensures NoSoh(m) && Begin(m) != [] && Parse(Wire(m)) != Ok(Normal(m))
  {
    hide Parse, Wire, Normal, Ascending, Encode;
    m := map[8 := Ascii([57, EQUALS])];
    assert At9(Begin(m), 0);
    NothingButBegin(m);
    RoundTrip(m);
  }

  lemma NothingButBegin(m: Fields)
    requires m.Keys <= {8, 9, 10}
    ensures |Body(m)| == 0
  {
    assert m.Keys - {8, 9, 10} == {};
  }

  /** Re-serialising what was read back gives the same bytes. */
  lemma NormalSerialisesTheSame(m: Fields)
    ensures Wire(Normal(m)) == Wire(m)
  {
    var v := Normal(m);
    assert v.Keys - {8, 9, 10} == m.Keys - {8, 9, 10};
    RecordsCongruent(m, v, BodyTags(m));
    assert Body(v) == Body(m);
  }

  lemma {:induction false} RecordsCongruent(m: Fields, v: Fields, ts: seq<U32>)
    requires forall t :: t in ts ==> t in m && t in v && m[t] == v[t]
    ensures Records(m, ts) == Records(v, ts)
  {
    if ts != [] { RecordsCongruent(m, v, ts[1..]); }
  }

  /** Two messages without separators in their values and with the same wire form
      agree on every tag but 9 and 10, a missing begin string counting as `FIX.4.4`. */
  lemma SerialiseIsInjective(m: Fields, n: Fields)
    requires NoSoh(m) && NoSoh(n) && Wire(m) == Wire(n)
    ensures forall t :: t !in {8, 9, 10} ==> (t in m <==> t in n) && (t in m ==> m[t] == n[t])
    ensures 8 in m && 8 in n ==> m[8] == n[8]
    ensures 8 in m && 8 !in n ==> m[8] == [70, 73, 88, 46, 52, 46, 52]
    ensures 8 !in m && 8 in n ==> n[8] == [70, 73, 88, 46, 52, 46, 52]
  {
    FieldsReadBack(m);
    FieldsReadBack(n);
    hide Wire, ParseFields, Body, CheckDigits, NoSoh, Normal, Utf8;
    NormalAgrees(m);
    NormalAgrees(n);
  }

  lemma NormalAgrees(m: Fields)
    ensures 8 in Normal(m) && Normal(m)[8] == Begin(m)
    ensures forall t :: t !in {8, 9, 10} ==> (t in m <==> t in Normal(m)) && (t in m ==> m[t] == Normal(m)[t])
  {
    hide Body, CheckDigits, Decimal;
  }
}
