/** Where the body-length and checksum scans stop. */
module FixEnvelope {
  import opened Orders
  import opened ByteStrings
  import opened FixWire

  lemma {:induction false} BodyStartSkips(bytes: Bytes, a: nat, b: nat)
    requires a <= b && forall j :: a <= j < b ==> !At9(bytes, j)
    ensures BodyStart(bytes, a) == BodyStart(bytes, b)
    decreases b - a
  {
    if a < b { BodyStartSkips(bytes, a + 1, b); }
  }

  lemma {:induction false} BodyStartHere(bytes: Bytes, i: nat, end: nat)
    requires At9(bytes, i) && i + 2 <= end < |bytes| && bytes[end] == SOH
    requires forall j :: i + 2 <= j < end ==> bytes[j] != SOH
    ensures BodyStart(bytes, i) == Some(end + 1)
  {
    var tail := bytes[i + 2..];
    IndexOfIs(tail, SOH, end - (i + 2));
  }

  lemma {:induction false} ChecksumStartIs(bytes: Bytes, n: nat, c: nat)
    requires c < n && At10(bytes, c) && forall j :: c < j < n ==> !At10(bytes, j)
    ensures ChecksumStart(bytes, n) == Some(c)
  {
    if c < n - 1 { ChecksumStartIs(bytes, n - 1, c); }
  }

  lemma {:induction false} ChecksumStartNone(bytes: Bytes, n: nat)
    requires forall j :: 0 <= j < n ==> !At10(bytes, j)
    ensures ChecksumStart(bytes, n) == None
  {
    if n > 0 { ChecksumStartNone(bytes, n - 1); }
  }

  /** A checksum field holding `v`, with `tail` where its separator belongs. */
  function Trailer(v: Bytes, tail: Bytes): Bytes {
    [49, 48, EQUALS] + v + tail
  }

  lemma TrailerShape(v: Bytes)
    ensures Field(10, v) == Trailer(v, [SOH])
  {
    assert Decimal(10) == Decimal(1) + [48];
  }

  predicate EndsWithSoh(p: Bytes) {
    p != [] && p[|p| - 1] == SOH
  }

  /** No checksum field can start inside the checksum field itself. */
  lemma NothingInTrailer(p: Bytes, v: Bytes, tail: Bytes, j: nat)
    requires SOH !in v && |tail| <= 2 && |p| < j
    ensures !At10(p + Trailer(v, tail), j)
  {
    var w := p + Trailer(v, tail);
    var n := |p| + 3;
    if j + 3 <= |w| {
      assert w[j - 1] == if j - 1 < n then Trailer([], [])[j - 1 - |p|] else v[j - 1 - n];
    }
  }

  /** A buffer ending in a checksum field has that field found. */
  lemma TrailerIsFound(p: Bytes, v: Bytes, tail: Bytes)
    requires EndsWithSoh(p) && SOH !in v && |tail| <= 2
    ensures var w := p + Trailer(v, tail); ChecksumStart(w, |w|) == Some(|p|) && w[..|p|] == p
  {
    var w := p + Trailer(v, tail);
    forall j | |p| < j < |w| ensures !At10(w, j) { NothingInTrailer(p, v, tail, j); }
    assert w[|p|] == 49 && w[|p| + 1] == 48 && w[|p| + 2] == EQUALS && w[|p| - 1] == SOH;
    ChecksumStartIs(w, |w|, |p|);
  }

  /** With three digits in it the body cannot start behind the checksum field, so
      the slice between them is in order. */
  lemma {:induction false} BodyStartsBeforeTrailer(p: Bytes, ds: Bytes, idx: nat)
    requires EndsWithSoh(p) && |ds| == 3 && AllDigits(ds)
    ensures var r := BodyStart(p + Field(10, ds), idx); r.Some? ==> r.value <= |p|
    decreases |p| + 7 - idx
  {
    TrailerShape(ds);
    var w := p + Field(10, ds);
    if idx < |w| {
      if At9(w, idx) {
        LengthTagIsInside(p, ds, idx);
        assert w[idx + 2..][|p| - 1 - (idx + 2)] == SOH;
      } else {
        BodyStartsBeforeTrailer(p, ds, idx + 1);
      }
    }
  }

  lemma LengthTagIsInside(p: Bytes, ds: Bytes, i: nat)
    requires EndsWithSoh(p) && |ds| == 3 && AllDigits(ds) && At9(p + Field(10, ds), i)
    ensures i + 2 < |p|
  {
    TrailerShape(ds);
    var w := p + ([49, 48, EQUALS] + ds + [SOH]);
    assert w[|p| - 1] == SOH && w[|p|] == 49 && w[|p| + 1] == 48 && w[|p| + 2] == EQUALS && w[|p| + 6] == SOH;
    assert w[|p| + 3] == ds[0] && w[|p| + 4] == ds[1] && w[|p| + 5] == ds[2];
  }

  // ---------------------------------------------------------------------
  // Where records start
  // ---------------------------------------------------------------------

  predicate CleanRecords(rs: seq<Record>) {
    forall i :: 0 <= i < |rs| ==> SOH !in rs[i].1
  }

  lemma {:induction false} EncodeEndsWithSoh(rs: seq<Record>)
    requires rs != []
    ensures EndsWithSoh(Encode(rs))
  {
    if |rs| > 1 { EncodeEndsWithSoh(rs[1..]); }
  }

  lemma FieldHasOneSoh(t: U32, v: Bytes, i: nat)
    requires SOH !in v && i < |Field(t, v)| - 1
    ensures Field(t, v)[i] != SOH
  {
    if i < |Decimal(t)| { assert IsDigit(Decimal(t)[i]); }
  }

  /** Right behind a separator a record starts, and nowhere else. */
  lemma {:induction false} SeparatorsStartRecords(rs: seq<Record>, i: nat) returns (j: nat)
    requires CleanRecords(rs) && i < |Encode(rs)| && (i == 0 || Encode(rs)[i - 1] == SOH)
    ensures j < |rs| && Encode(rs)[i..] == Encode(rs[j..])
  {
    var f := Field(rs[0].0, rs[0].1);
    j := 0;
    if i == 0 {
      assert rs[0..] == rs;
    } else if i < |f| {
      FieldHasOneSoh(rs[0].0, rs[0].1, i - 1);
    } else {
      var k := SeparatorsStartRecords(rs[1..], i - |f|);
      j := k + 1;
      assert Encode(rs)[i..] == Encode(rs[1..])[i - |f|..];
    }
  }

  lemma {:induction false} EncodeTwo(a: Record, b: Record, rs: seq<Record>)
    ensures Encode([a, b] + rs) == Field(a.0, a.1) + (Field(b.0, b.1) + Encode(rs))
  {
    var all, one := [a, b] + rs, [b] + rs;
    assert all[1..] == one && one[1..] == rs;
    assert Encode(one) == Field(b.0, b.1) + Encode(rs);
  }

  /** The header fields and the body, spelled out. */
  lemma WireLayout(m: Fields)
    ensures Head(m) == Field(8, Begin(m)) + (Field(9, Decimal(|Body(m)|)) + Body(m))
    ensures EndsWithSoh(Head(m))
  {
    var rs := HeadRecords(m);
    var body := Records(m, BodyTags(m));
    EncodeEndsWithSoh(rs);
    EncodeTwo(rs[0], rs[1], body);
  }
}
