/** Why no single corrupted byte of a serialised message does harm. */
module FixCorruption {
  import opened Orders
  import opened ByteStrings
  import opened FixWire
  import opened FixEnvelope
  import opened FixTheorems

  // ---------------------------------------------------------------------
  // Before the checksum field
  // ---------------------------------------------------------------------

  /** A buffer that ends in a checksum field either fails to parse into fields or
      yields that field's value for tag 10. */
  lemma {:induction false} LastFieldWins(p: Bytes, ds: Text, acc: Fields)
    requires SOH !in ds && (p == [] || EndsWithSoh(p))
    ensures var r := ParseFields(p + Field(10, ds), acc); r.Ok? ==> 10 in r.value && r.value[10] == ds
    decreases |p|
  {
    hide Field, Decimal, ParseChunk;
    var w := p + Field(10, ds);
    if p == [] {
      assert w == Field(10, ds) + [];
      FieldParses(10, ds, [], acc);
      EmptyParses(acc[10 := ds]);
    } else {
      var k := IndexOf(w, SOH);
      assert w[|p| - 1] == SOH;
      var r := ParseChunk(w[..k], acc);
      assert w[k + 1..] == p[k + 1..] + Field(10, ds);
      if r.Ok? { LastFieldWins(p[k + 1..], ds, r.value); }
    }
  }

  /** Only a field with tag 10 starts like the checksum field. */
  lemma {:induction false} OnlyTagTen(t: U32, v: Bytes, w: Bytes)
    requires |Decimal(t)| + 1 <= |w| && w[..|Decimal(t)| + 1] == Decimal(t) + [EQUALS] && At10([SOH] + w, 1)
    ensures t == 10
  {
    hide Decimal, Utf8;
    var d := Decimal(t);
    assert ([SOH] + w)[1] == w[0] && ([SOH] + w)[2] == w[1] && ([SOH] + w)[3] == w[2];
    assert w[|d|] == EQUALS;
    assert forall j :: 0 <= j < |d| ==> w[j] == d[j] && IsDigit(d[j]);
    assert |d| == 2 && d == [49, 48];
    DecimalValue(t);
    assert d[..1][..0] == [] && Value(d[..1]) == 1;
  }

  predicate NoTagTen(rs: seq<Record>) {
    forall i :: 0 <= i < |rs| ==> rs[i].0 != 10
  }

  /** With the separator before the checksum field gone, nothing in the buffer
      starts like a checksum field any more. */
  lemma {:induction false} NoTrailerLeft(rs: seq<Record>, ds: Bytes, x: Byte, i: nat)
    requires CleanRecords(rs) && NoTagTen(rs) && rs != [] && EndsWithSoh(Encode(rs))
    requires |ds| == 3 && AllDigits(ds) && x != SOH
    ensures var p := Encode(rs); !At10(p[|p| - 1 := x] + Field(10, ds), i)
  {
    hide Encode, Field, CleanRecords, NoTagTen, AllDigits;
    var p := Encode(rs);
    var c := p[|p| - 1 := x];
    TrailerShape(ds);
    DigitsAreClean(ds);
    var w := c + Field(10, ds);
    assert w[|p| - 1] == x && w[|p|] == 49 && w[|p| + 1] == 48;
    if i > |p| {
      NothingInTrailer(c, ds, [SOH], i);
    } else if i + 3 <= |p| && (i == 0 || p[i - 1] == SOH) && At10(w, i) {
      var j := SeparatorsStartRecords(rs, i);
      EncodeFrom(rs, j);
      TagIsTen(rs[j].0, rs[j].1, Encode(rs[j + 1..]), p[i..], w[i..]);
      NotTen(rs, j);
    }
  }

  lemma EncodeFrom(rs: seq<Record>, j: nat)
    requires j < |rs|
    ensures Encode(rs[j..]) == Field(rs[j].0, rs[j].1) + Encode(rs[j + 1..])
  {
    assert rs[j..][1..] == rs[j + 1..];
  }

  lemma NotTen(rs: seq<Record>, j: nat)
    requires NoTagTen(rs) && j < |rs|
    ensures rs[j].0 != 10
  {}

  /** If a record, its last byte aside, reads like a checksum field, its tag is 10. */
  lemma TagIsTen(t: U32, v: Bytes, rest: Bytes, was: Bytes, now: Bytes)
    requires was == Field(t, v) + rest && |was| <= |now|
    requires forall k :: 0 <= k < |was| - 1 ==> now[k] == was[k]
    requires At10([SOH] + now, 1)
    ensures t == 10
  {
    var d := Decimal(t);
    assert |was| >= |d| + 2;
    assert now[..|d| + 1] == d + [EQUALS];
    OnlyTagTen(t, v, now);
  }

  lemma HeadHasNoTagTen(m: Fields)
    ensures NoTagTen(HeadRecords(m))
  {
    RecordTags(m, BodyTags(m));
    hide Records, Body, Decimal, Ascending;
    assert 10 !in BodyTags(m);
  }

  lemma {:induction false} RecordTags(m: Fields, ts: seq<U32>)
    ensures forall i :: 0 <= i < |Records(m, ts)| ==> Records(m, ts)[i].0 in ts
  {
    if ts != [] { RecordTags(m, ts[1..]); }
  }

  /** Parsing returns one of the source's error values; in particular it does not
      slice out of order. */
  predicate Rejected(bytes: Bytes) {
    var r := Parse(bytes);
    r.Err? && r.error != SliceOutOfOrder
  }

  lemma {:induction false} RejectedWithoutChecksumField(bytes: Bytes)
    requires ChecksumStart(bytes, |bytes|) == None
    ensures Rejected(bytes)
  {
    FieldErrors(bytes, map[]);
    hide ParseFields, ParseUnsigned, BodyStart, ChecksumStart, Sum;
  }

  /** A buffer whose envelope is found but whose bytes do not sum to its checksum. */
  lemma {:induction false} RejectedOnMismatch(w: Bytes, check: nat)
    requires var e := FindEnvelope(w);
      if e.Ok? then Sum(w[..e.value.checksumStart]) % 256 != check else e.error != SliceOutOfOrder
    requires var r := ParseFields(w, map[]);
      if r.Ok? then 10 in r.value && ParseUnsigned(r.value[10], U32_MAX) == Some(check) else r.error != SliceOutOfOrder
    ensures Rejected(w)
  {
    hide ParseFields, FindEnvelope, Sum, ParseUnsigned;
  }

  /** The checksum field is intact, and the sum no longer matches it. */
  lemma {:induction false} RejectedBySum(c: Bytes, ds: Text, check: nat)
    requires EndsWithSoh(c) && |ds| == 3 && AllDigits(ds) && SOH !in ds
    requires ParseUnsigned(ds, U32_MAX) == Some(check) && Sum(c) % 256 != check
    ensures Rejected(c + Field(10, ds))
  {
    hide Field, ParseFields, BodyStart, ChecksumStart, Sum, ParseUnsigned, AllDigits, Rejected;
    var w := c + Field(10, ds);
    FieldErrors(w, map[]);
    LastFieldWins(c, ds, map[]);
    TrailerShape(ds);
    TrailerIsFound(c, ds, [SOH]);
    BodyStartsBeforeTrailer(c, ds, 0);
    RejectedOnMismatch(w, check);
  }

  /** The separator before the checksum field is gone, so no envelope is found. */
  lemma {:induction false} SeparatorCorrupted(rs: seq<Record>, p: Bytes, ds: Text, x: Byte)
    requires CleanRecords(rs) && NoTagTen(rs) && rs != [] && p == Encode(rs) && EndsWithSoh(p)
    requires |ds| == 3 && AllDigits(ds) && x != SOH
    ensures Rejected(p[|p| - 1 := x] + Field(10, ds))
  {
    var w := p[|p| - 1 := x] + Field(10, ds);
    forall i | 0 <= i < |w| ensures !At10(w, i) {
      NoTrailerLeft(rs, ds, x, i);
    }
    ChecksumStartNone(w, |w|);
    RejectedWithoutChecksumField(w);
  }

  lemma ResiduesDiffer(a: nat, b: nat)
    requires a != b && -256 < a - b < 256
    ensures a % 256 != b % 256
  {}

  lemma {:induction false} ByteCorrupted(p: Bytes, ds: Text, k: nat, x: Byte)
    requires EndsWithSoh(p) && k < |p| - 1 && x != p[k]
    requires ds == Decimal3(Sum(p) % 256) && SOH !in ds
    ensures Rejected(p[k := x] + Field(10, ds))
  {
    SumUpdate(p, k, x);
    ResiduesDiffer(Sum(p[k := x]), Sum(p));
    Decimal3Parses(Sum(p) % 256, U32_MAX);
    hide Sum, Rejected, ParseUnsigned, Decimal3, Field;
    RejectedBySum(p[k := x], ds, Sum(p) % 256);
  }

  /** Replacing any one byte before the checksum field makes parsing fail, with one
      of the error values and never by slicing out of order. For the separator in
      front of that field this needs values without separators, since one of them
      could hold another checksum field. */
  lemma CorruptionIsDetected(m: Fields, k: nat, x: Byte)
    requires k < |Head(m)| && (k == |Head(m)| - 1 ==> NoSoh(m)) && x != Wire(m)[k]
    ensures Rejected(Wire(m)[k := x])
  {
    WireLayout(m);
    CheckDigitsAreClean(m);
    if k == |Head(m)| - 1 { HeadIsClean(m); }
    HeadHasNoTagTen(m);
    hide Rejected, NoSoh, HeadRecords, Body, Sum, Decimal3, Encode, Field, Decimal;
    AnyByteCorrupted(HeadRecords(m), Head(m), CheckDigits(m), k, x);
  }

  lemma UpdateInFront(p: Bytes, t: Bytes, k: nat, x: Byte)
    requires k < |p|
    ensures (p + t)[k := x] == p[k := x] + t
  {}

  lemma {:induction false} AnyByteCorrupted(rs: seq<Record>, p: Bytes, ds: Text, k: nat, x: Byte)
    requires NoTagTen(rs) && rs != [] && p == Encode(rs) && EndsWithSoh(p)
    requires ds == Decimal3(Sum(p) % 256) && SOH !in ds && k < |p| && x != p[k]
    requires k == |p| - 1 ==> CleanRecords(rs)
    ensures Rejected((p + Field(10, ds))[k := x])
  {
    hide Rejected, Sum, Encode, Field, Decimal3, CleanRecords, NoTagTen, AllDigits, EndsWithSoh;
    UpdateInFront(p, Field(10, ds), k, x);
    if k < |p| - 1 {
      ByteCorrupted(p, ds, k, x);
    } else {
      LastByte(p);
      SeparatorCorrupted(rs, p, ds, x);
    }
  }

  lemma LastByte(p: Bytes)
    requires EndsWithSoh(p)
    ensures p[|p| - 1] == SOH
  {}

  // ---------------------------------------------------------------------
  // In the checksum field
  // ---------------------------------------------------------------------

  /** When fields and body length are right, the checksum field alone decides. */
  lemma {:induction false} ChecksumDecides(w: Bytes, v: Fields, e: Envelope)
    requires ParseFields(w, map[]) == Ok(v) && 8 in v && 9 in v && 10 in v && v[8] != []
    requires FindEnvelope(w) == Ok(e) && e.bodyStart <= e.checksumStart <= |w|
    requires ParseUnsigned(v[9], U64_MAX) == Some(e.checksumStart - e.bodyStart)
    ensures if ParseUnsigned(v[10], U32_MAX) == Some(Sum(w[..e.checksumStart]) % 256)
              then Parse(w) == Ok(v) else Rejected(w)
  {
    hide ParseFields, FindEnvelope, Sum, ParseUnsigned;
  }

  /** With another value in the checksum field, the message is read back if that value
      still denotes the checksum, and rejected otherwise. */
  lemma {:induction false} TrailerReplaced(m: Fields, v: Text, tail: Bytes)
    requires Clean(m) && |Body(m)| <= U64_MAX && SOH !in v && Ends(tail)
    ensures var w := Head(m) + Trailer(v, tail);
      if ParseUnsigned(v, U32_MAX) == Some(Sum(Head(m)) % 256) then Parse(w) == Ok(Enveloped(m, v)) else Rejected(w)
  {
    hide Field, Decimal, Head, Body, FindEnvelope, ParseFields, ParseUnsigned, NoSoh, Sum, Enveloped, NoLengthTag,
      Trailer, Parse, Rejected, CheckDigits, Utf8;
    FieldsReadBackWith(m, v, tail);
    EnvelopeFound(m, v, tail);
    WireLayout(m);
    DecimalParses(|Body(m)|, U64_MAX);
    EnvelopedTags(m, v);
    var start := |Field(8, Begin(m))| + |Field(9, Decimal(|Body(m)|))|;
    ChecksumDecides(Head(m) + Trailer(v, tail), Enveloped(m, v), Envelope(start, |Head(m)|));
  }

  lemma EnvelopedTags(m: Fields, v: Text)
    ensures var e := Enveloped(m, v); 8 in e && 9 in e && 10 in e
    ensures var e := Enveloped(m, v); e[8] == Begin(m) && e[9] == Decimal(|Body(m)|) && e[10] == v
    ensures Enveloped(m, v)[10 := CheckDigits(m)] == Normal(m)
  {
    hide Body, CheckDigits, Decimal;
  }

  /** The tag of the checksum field is damaged, so nothing starts like one any more. */
  lemma {:induction false} TagCorrupted(rs: seq<Record>, p: Bytes, ds: Bytes, j: nat, x: Byte)
    requires CleanRecords(rs) && NoTagTen(rs) && rs != [] && p == Encode(rs) && EndsWithSoh(p)
    requires |ds| == 3 && AllDigits(ds) && j < 3 && x != Trailer(ds, [SOH])[j]
    ensures Rejected(p + Trailer(ds, [SOH])[j := x])
  {
    var w := p + Trailer(ds, [SOH])[j := x];
    forall i | 0 <= i < |w| ensures !At10(w, i) {
      NoTagLeft(rs, ds, j, x, i);
    }
    ChecksumStartNone(w, |w|);
    RejectedWithoutChecksumField(w);
  }

  lemma {:induction false} NoTagLeft(rs: seq<Record>, ds: Bytes, j: nat, x: Byte, i: nat)
    requires CleanRecords(rs) && NoTagTen(rs) && rs != [] && EndsWithSoh(Encode(rs))
    requires |ds| == 3 && AllDigits(ds) && j < 3 && x != Trailer(ds, [SOH])[j]
    ensures !At10(Encode(rs) + Trailer(ds, [SOH])[j := x], i)
  {
    hide Encode, Field, CleanRecords, NoTagTen, AllDigits;
    DigitsAreClean(ds);
    var p, t := Encode(rs), Trailer(ds, [SOH])[j := x];
    var w := p + t;
    assert w[|p| - 1] == SOH && forall k :: 0 <= k < |t| ==> w[|p| + k] == t[k];
    if i > |p| {
      assert |p| + 3 <= i + 2 < |w| ==> w[i + 2] == if i + 2 == |p| + 6 then SOH else ds[i + 2 - (|p| + 3)];
    } else if i + 3 <= |p| && (i == 0 || p[i - 1] == SOH) && At10(w, i) {
      var r := SeparatorsStartRecords(rs, i);
      EncodeFrom(rs, r);
      TagIsTen(rs[r].0, rs[r].1, Encode(rs[r + 1..]), p[i..], w[i..]);
      NotTen(rs, r);
    }
  }

  /** Two of three digits with a separator for the one between or before them. */
  lemma CutParts(ds: Bytes, j: nat)
    requires |ds| == 3 && AllDigits(ds) && j < 2
    ensures var rest := ds[j + 1..] + [SOH];
      && Trailer(ds[j := SOH], [SOH]) == Trailer(ds[..j], [SOH]) + rest
      && IndexOf(rest, SOH) == 2 - j && rest[..2 - j] == ds[j + 1..] && EQUALS !in rest[..2 - j]
    ensures AllDigits(ds[..j]) && AllDigits(ds[j + 1..])
  {
    var rest := ds[j + 1..] + [SOH];
    DigitsAreClean(ds);
    assert forall k :: 0 <= k < 2 - j ==> rest[k] == ds[j + 1 + k] && rest[k] in ds;
    assert ds[j := SOH] == ds[..j] + [SOH] + ds[j + 1..];
    IndexOfIs(rest, SOH, 2 - j);
    assert rest[..2 - j] == ds[j + 1..];
  }

  /** A piece without equals sign is an error wherever it comes. */
  lemma {:induction false} NoEquals(rest: Bytes, acc: Fields)
    requires var k := IndexOf(rest, SOH); k > 0 && EQUALS !in rest[..k]
    ensures ParseFields(rest, acc) == Err(MalformedField)
  {
    hide Utf8, ParseFields, ParseUnsigned;
    FirstChunk(rest, acc);
    var chunk := rest[..IndexOf(rest, SOH)];
    IndexOfIs(chunk, EQUALS, |chunk|);
  }

  /** A separator among the first two digits leaves digits that are no field. */
  lemma {:induction false} DigitsCutOff(m: Fields, ds: Text, j: nat)
    requires NoSoh(m) && |ds| == 3 && AllDigits(ds) && j < 2
    ensures Rejected(Head(m) + Trailer(ds[j := SOH], [SOH]))
  {
    hide Parse, ParseFields, PutAll, Encode, Field, HeadRecords, Body, NoSoh, Trailer, IndexOf, Rejected, Utf8;
    HeadIsClean(m);
    CutParts(ds, j);
    var v, rest := Ascii(ds[..j]), ds[j + 1..] + [SOH];
    DigitsAreClean(v);
    var acc := PutAll(map[], HeadRecords(m));
    TrailerShape(v);
    EncodeParses(HeadRecords(m), Trailer(ds[j := SOH], [SOH]), map[]);
    FieldParses(10, v, rest, acc);
    NoEquals(rest, acc[10 := v]);
    FieldErrorIsFinal(Head(m) + Trailer(ds[j := SOH], [SOH]));
  }

  lemma {:induction false} FieldErrorIsFinal(w: Bytes)
    requires ParseFields(w, map[]).Err?
    ensures Rejected(w)
  {
    FieldErrors(w, map[]);
    hide ParseFields;
  }

  // ---------------------------------------------------------------------
  // What numeral the damaged digits are
  // ---------------------------------------------------------------------

  function Digit(b: Byte): int {
    b - 48
  }

  lemma {:induction false} TwoDigits(s: Bytes)
    requires |s| == 2 && AllDigits(s)
    ensures Value(s) == Digit(s[0]) * 10 + Digit(s[1])
  {
    assert s[..1][..0] == [] && Value(s[..1]) == s[0] - 48;
  }

  lemma {:induction false} ThreeDigits(s: Bytes)
    requires |s| == 3 && AllDigits(s)
    ensures Value(s) == Digit(s[0]) * 100 + Digit(s[1]) * 10 + Digit(s[2])
  {
    TwoDigits(s[..2]);
  }

  lemma {:induction false} DigitReplaced(ds: Bytes, j: nat, x: Byte)
    requires |ds| == 3 && AllDigits(ds) && j < 3 && x != ds[j]
    ensures ParseUnsigned(ds[j := x], U32_MAX) == Some(Value(ds)) <==> j == 0 && x == 43 && ds[0] == 48
  {
    hide Value;
    var v := ds[j := x];
    ThreeDigits(ds);
    if AllDigits(v) {
      assert IsDigit(v[0]);
      ThreeDigits(v);
    } else if v[0] == 43 {
      assert IsDigit(ds[0]) && j == 0 && v[1..] == ds[1..];
      TwoDigits(ds[1..]);
    }
  }

  lemma {:induction false} DigitDropped(ds: Bytes)
    requires |ds| == 3 && AllDigits(ds)
    ensures ParseUnsigned(ds[..2], U32_MAX) == Some(Value(ds)) <==> ds == [48, 48, 48]
  {
    hide Value;
    ThreeDigits(ds);
    assert IsDigit(ds[..2][0]);
    TwoDigits(ds[..2]);
  }

  lemma {:induction false} DigitAdded(ds: Bytes, x: Byte)
    requires |ds| == 3 && AllDigits(ds)
    ensures ParseUnsigned(ds + [x], U32_MAX) == Some(Value(ds)) <==> ds == [48, 48, 48] && x == 48
  {
    ThreeDigits(ds);
    var v := ds + [x];
    assert IsDigit(v[0]) && v[..3] == ds;
    if AllDigits(v) {
      assert IsDigit(v[3]) && Value(v) == Value(ds) * 10 + (x - 48);
    } else {
      assert AllDigits(ds) && !IsDigit(x) && v[3] == x;
    }
  }

  // ---------------------------------------------------------------------
  // Any byte of the wire
  // ---------------------------------------------------------------------

  /** The three ways to rewrite a checksum field into the same number: a leading zero
      becomes a plus sign, or of the checksum 000 the last digit becomes a separator
      or the separator a fourth zero. */
  predicate SameChecksum(ds: Bytes, j: nat, x: Byte)
    requires |ds| == 3
  {
    || (j == 3 && ds[0] == 48 && x == 43)
    || (j == 5 && ds == [48, 48, 48] && x == SOH)
    || (j == 6 && ds == [48, 48, 48] && x == 48)
  }

  /** The message is read back as it was, but for the text of its checksum field. */
  predicate Survives(m: Fields, w: Bytes) {
    Parse(w).Ok? && Parse(w).value[10 := CheckDigits(m)] == Normal(m)
  }

  lemma {:induction false} NumeralsAreText(v: Bytes, max: nat)
    requires ParseUnsigned(v, max).Some?
    ensures Utf8(v)
  {
    hide Value;
    var d := if v[0] == 43 then v[1..] else v;
    forall i | 0 <= i < |v| ensures v[i] < 0x80 {
      assert i > 0 || v[0] != 43 ==> IsDigit(d[if v[0] == 43 then i - 1 else i]);
    }
    AsciiIsUtf8(v);
  }

  /** A checksum field that is not text is rejected. */
  lemma {:induction false} BrokenTextIsRejected(m: Fields, v: Bytes, tail: Bytes)
    requires NoSoh(m) && SOH !in v && !Utf8(v) && Ends(tail)
    ensures Rejected(Head(m) + Trailer(v, tail))
  {
    hide Parse, ParseFields, PutAll, Encode, HeadRecords, Body, NoSoh, Utf8, Rejected;
    HeadIsClean(m);
    var t, acc := Trailer(v, tail), PutAll(map[], HeadRecords(m));
    var tag := Ascii([49, 48, EQUALS]);
    EncodeParses(HeadRecords(m), t, map[]);
    assert t == tag + v + tail && SOH !in tag + v;
    IndexOfIs(t, SOH, |tag + v|);
    assert t[..|tag + v|] == tag + v;
    Utf8Append(tag, v);
    FirstChunk(t, acc);
    FieldErrorIsFinal(Head(m) + t);
  }

  /** A value in the checksum field that denotes the same number does no harm, and any
      other is rejected. */
  lemma {:induction false} ValueReplaced(m: Fields, v: Bytes, tail: Bytes, same: bool)
    requires Clean(m) && |Body(m)| <= U64_MAX && SOH !in v && Ends(tail)
    requires ParseUnsigned(v, U32_MAX) == Some(Value(CheckDigits(m))) <==> same
    ensures var w := Head(m) + Trailer(v, tail); if same then Survives(m, w) else Rejected(w)
  {
    Decimal3Value(Sum(Head(m)) % 256);
    hide Rejected, Parse, Head, Body, Sum, NoSoh, Enveloped, Normal, ParseUnsigned, Value, Trailer, Utf8;
    if same { NumeralsAreText(v, U32_MAX); }
    if Utf8(v) {
      TrailerReplaced(m, v, tail);
      EnvelopedTags(m, v);
    } else {
      BrokenTextIsRejected(m, v, tail);
    }
  }

  /** A replaced byte in the digits of the checksum field or the separator behind it. */
  lemma {:induction false} TrailerCorrupted(m: Fields, j: nat, x: Byte)
    requires Clean(m) && |Body(m)| <= U64_MAX && 3 <= j < 7
    requires x != Trailer(CheckDigits(m), [SOH])[j]
    ensures var w := Head(m) + Trailer(CheckDigits(m), [SOH])[j := x];
      if SameChecksum(CheckDigits(m), j, x) then Survives(m, w) else Rejected(w)
  {
    hide Rejected, Survives, Head, Body, NoSoh, CheckDigits, ParseUnsigned, AllDigits, Value;
    var ds := CheckDigits(m);
    var t := Trailer(ds, [SOH])[j := x];
    DigitsAreClean(ds);
    if j == 6 {
      assert t == Trailer(ds + [x], []);
      DigitAdded(ds, x);
      ValueReplaced(m, ds + [x], [], SameChecksum(ds, j, x));
    } else if x != SOH {
      var v := ds[j - 3 := x];
      assert t == Trailer(v, [SOH]);
      DigitReplaced(ds, j - 3, x);
      ValueReplaced(m, v, [SOH], SameChecksum(ds, j, x));
    } else if j == 5 {
      assert t == Trailer(ds[..2], [SOH, SOH]);
      DigitDropped(ds);
      ValueReplaced(m, ds[..2], [SOH, SOH], SameChecksum(ds, j, x));
    } else {
      assert t == Trailer(ds[j - 3 := SOH], [SOH]);
      DigitsCutOff(m, ds, j - 3);
    }
  }

  /** Replace any one byte of a serialised message, the checksum field included: it
      is rejected with an error, unless the byte rewrites the checksum into the same
      number, and then the message read back is the one that was sent. */
  lemma {:induction false} OneByteDoesNoHarm(m: Fields, k: nat, x: Byte)
    requires Clean(m) && |Body(m)| <= U64_MAX && k < |Wire(m)| && x != Wire(m)[k]
    ensures var w := Wire(m)[k := x];
      if |Head(m)| <= k && SameChecksum(CheckDigits(m), k - |Head(m)|, x) then Survives(m, w) else Rejected(w)
  {
    hide Rejected, Survives, Body, Encode, Sum, Decimal3;
    var p, ds := Head(m), CheckDigits(m);
    WireLayout(m);
    TrailerShape(ds);
    if k < |p| {
      CorruptionIsDetected(m, k, x);
    } else {
      var j := k - |p|;
      assert Wire(m)[k := x] == p + Trailer(ds, [SOH])[j := x];
      if j < 3 {
        HeadIsClean(m);
        HeadHasNoTagTen(m);
        TagCorrupted(HeadRecords(m), p, ds, j, x);
      } else {
        TrailerCorrupted(m, j, x);
      }
    }
  }
}
