/** The FIX parser and serialiser as the source runs them, proved against `FixWire`. */
module FixCodec {
  import opened Orders
  import opened ByteStrings
  import opened FixWire
  import opened FixEnvelope
  import opened FixTheorems
  import opened FixAcceptance
  import opened FixMessages

  // ---------------------------------------------------------------------
  // Serialising
  // ---------------------------------------------------------------------

  method PushField(buf: Bytes, tag: U32, value: Bytes) returns (out: Bytes)
    ensures out == buf + Field(tag, value)
  {
    out := buf;
    out := out + Decimal(tag);
    out := out + [EQUALS];
    out := out + value;
    out := out + [SOH];
  }

  /** Tags without the begin string, which the body loop skips. */
  function SkipEight(ts: seq<U32>): seq<U32> {
    if ts == [] then [] else if ts[0] == 8 then SkipEight(ts[1..]) else [ts[0]] + SkipEight(ts[1..])
  }

  lemma {:induction false} SkipNothing(ts: seq<U32>)
    requires 8 !in ts
    ensures SkipEight(ts) == ts
  {
    if ts != [] {
      assert ts[0] in ts && forall t :: t in ts[1..] ==> t in ts;
      SkipNothing(ts[1..]);
    }
  }

  lemma {:induction false} SkipAscending(s: set<U32>)
    ensures SkipEight(Ascending(s)) == Ascending(s - {8})
  {
    if s != {} {
      var t := LeastTag(s);
      var rest := Ascending(s - {t});
      assert Ascending(s)[1..] == rest;
      if t == 8 {
        SkipNothing(rest);
      } else {
        assert t in s - {8} && LeastTag(s - {8}) == t;
        assert s - {t} - {8} == s - {8} - {t};
        SkipAscending(s - {t});
      }
    }
  }

  lemma {:induction false} SkipAppend(a: seq<U32>, t: U32)
    ensures SkipEight(a + [t]) == if t == 8 then SkipEight(a) else SkipEight(a) + [t]
  {
    if a == [] {
      assert [t][1..] == [] && a + [t] == [t];
    } else {
      assert (a + [t])[1..] == a[1..] + [t];
      SkipAppend(a[1..], t);
    }
  }

  lemma {:induction false} RecordsAppend(m: Fields, a: seq<U32>, t: U32)
    ensures Encode(Records(m, a + [t])) == Encode(Records(m, a)) + Field(t, ValueOf(m, t))
  {
    if a == [] {
      assert a + [t] == [t] && [t][1..] == [];
      assert Records(m, [t])[1..] == [];
    } else {
      assert (a + [t])[1..] == a[1..] + [t];
      RecordsAppend(m, a[1..], t);
      assert Records(m, a + [t])[1..] == Records(m, a[1..] + [t]) && Records(m, a)[1..] == Records(m, a[1..]);
    }
  }

  lemma KeysLeft(m: Fields)
    ensures (m - {9, 10}).Keys - {8} == m.Keys - {8, 9, 10}
  {}

  /** The body, by the tags the loop runs over. */
  lemma {:induction false} BodyByLoop(m: Fields)
    ensures Encode(Records(m, SkipEight(Ascending((m - {9, 10}).Keys)))) == Body(m)
  {
    hide Encode, Records, SkipEight, Ascending;
    KeysLeft(m);
    SkipAscending((m - {9, 10}).Keys);
  }

  method SerializeBody(m: Fields) returns (body: Bytes)
    ensures body == Body(m)
  {
    hide Encode, Records, SkipEight, Ascending, Field, Body, Decimal, Utf8;
    var cloned := m - {9, 10};
    var tags := Ascending(cloned.Keys);
    BodyByLoop(m);
    body := [];
    NothingYet(m);
    var i := 0;
    while i < |tags|
      invariant 0 <= i <= |tags|
      invariant body == Encode(Records(m, SkipEight(tags[..i])))
    {
      var tag := tags[i];
      assert tag in tags && tags[..i + 1] == tags[..i] + [tag];
      SkipAppend(tags[..i], tag);
      if tag != 8 {
        RecordsAppend(m, SkipEight(tags[..i]), tag);
        body := PushField(body, tag, cloned[tag]);
      }
      i := i + 1;
    }
    assert tags[..i] == tags;
  }

  lemma {:induction false} NothingYet(m: Fields)
    ensures SkipEight([]) == [] && Encode(Records(m, [])) == []
  {}

  method Serialize(m: Fields) returns (out: Bytes)
    ensures out == Wire(m) && IsWire(m, out)
  {
    var begin := if 8 in m then m[8] else FIX_44;
    var body := SerializeBody(m);
    var bodyLen := |body|;
    HeadLayout(m);
    WireOutcome(m);
    hide Encode, Field, Decimal, Body, Head, Sum, IsWire;
    out := [];
    out := PushField(out, 8, begin);
    out := PushField(out, 9, Decimal(bodyLen));
    out := out + body;
    var cs := Sum(out) % 256;
    assert out == Head(m);
    out := PushField(out, 10, Decimal3(cs));
  }

  lemma HeadLayout(m: Fields)
    ensures Head(m) == [] + Field(8, Begin(m)) + Field(9, Decimal(|Body(m)|)) + Body(m)
  {
    hide Field, Head, Body, Begin, Decimal;
    WireLayout(m);
  }

  // ---------------------------------------------------------------------
  // Parsing
  // ---------------------------------------------------------------------

  method ParseAllFields(bytes: Bytes) returns (r: Parsed<Fields>)
    ensures r == ParseFields(bytes, map[])
  {
    hide IndexOf, ParseFields, ParseUnsigned;
    var msg: Fields := map[];
    var start := 0;
    assert bytes[0..] == bytes;
    while true
      invariant 0 <= start <= |bytes|
      invariant ParseFields(bytes, map[]) == ParseFields(bytes[start..], msg)
      decreases |bytes| - start
    {
      var tail := bytes[start..];
      var k := IndexOf(tail, SOH);
      var chunk := tail[..k];
      FirstChunk(tail, msg);
      if chunk != [] {
        if !Utf8(chunk) {
          return Err(MalformedField);
        }
        var eq := IndexOf(chunk, EQUALS);
        if eq == |chunk| {
          return Err(MalformedField);
        }
        var tag := ParseUnsigned(chunk[..eq], U32_MAX);
        if tag.None? {
          return Err(TagNotInteger);
        }
        Utf8Cut(chunk, eq);
        msg := msg[tag.value := chunk[eq + 1..]];
      }
      if k == |tail| {
        return Ok(msg);
      }
      assert tail[k + 1..] == bytes[start + k + 1..];
      start := start + k + 1;
    }
  }

  /** The two scans: forwards for the end of the length field, backwards for the
      start of the checksum field. */
  method SplitForVerification(bytes: Bytes) returns (r: Parsed<(Bytes, Bytes)>)
    ensures var e := FindEnvelope(bytes);
      r == if e.Err? then Err(e.error)
           else Ok((bytes[e.value.bodyStart..e.value.checksumStart], bytes[..e.value.checksumStart]))
  {
    var bodyStart: Option<nat> := None;
    var idx := 0;
    while idx < |bytes|
      invariant 0 <= idx <= |bytes| && bodyStart == None
      invariant BodyStart(bytes, 0) == BodyStart(bytes, idx)
    {
      if At9(bytes, idx) {
        var afterEq := idx + 2;
        var off := IndexOf(bytes[afterEq..], SOH);
        if off < |bytes[afterEq..]| {
          bodyStart := Some(afterEq + off + 1);
          break;
        }
      }
      idx := idx + 1;
    }
    if bodyStart.None? {
      return Err(MissingField(9));
    }
    var checksumStart: Option<nat> := None;
    var i := |bytes|;
    while i > 0
      invariant 0 <= i <= |bytes| && checksumStart == None
      invariant ChecksumStart(bytes, |bytes|) == ChecksumStart(bytes, i)
    {
      i := i - 1;
      if At10(bytes, i) {
        checksumStart := Some(i);
        break;
      }
    }
    if checksumStart.None? {
      return Err(MissingField(10));
    }
    if bodyStart.value > checksumStart.value {
      return Err(SliceOutOfOrder);
    }
    return Ok((bytes[bodyStart.value..checksumStart.value], bytes[..checksumStart.value]));
  }

  method ParseMessage(bytes: Bytes) returns (r: Parsed<Fields>)
    ensures r == Parse(bytes)
    ensures r.Ok? <==> exists v :: IsAcceptable(bytes, v)
    ensures r.Ok? ==> IsAcceptable(bytes, r.value)
  {
    hide ParseFields, ParseUnsigned, FindEnvelope, Sum, IsAcceptable;
    forall v ensures Parse(bytes) == Ok(v) <==> IsAcceptable(bytes, v) { AcceptedExactlyWhen(bytes, v); }
    r := ParseAllFields(bytes);
    if r.Err? {
      return;
    }
    var msg := r.value;
    if 8 !in msg { return Err(MissingField(8)); }
    if 9 !in msg { return Err(MissingField(9)); }
    if 10 !in msg { return Err(MissingField(10)); }
    var bodyLen := ParseUnsigned(msg[9], U64_MAX);
    if bodyLen.None? { return Err(MalformedField); }
    var expectedChecksum := ParseUnsigned(msg[10], U32_MAX);
    if expectedChecksum.None? { return Err(MalformedField); }
    var split := SplitForVerification(bytes);
    if split.Err? {
      return Err(split.error);
    }
    var (bodyBytes, checksumBytes) := split.value;
    if |bodyBytes| != bodyLen.value {
      return Err(BodyLengthMismatch(bodyLen.value, |bodyBytes|));
    }
    var actualChecksum := Sum(checksumBytes) % 256;
    if actualChecksum != expectedChecksum.value {
      return Err(ChecksumMismatch(expectedChecksum.value, actualChecksum));
    }
    if msg[8] == [] {
      return Err(MissingField(8));
    }
    return Ok(msg);
  }
}
