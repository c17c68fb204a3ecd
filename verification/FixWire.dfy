/** FIX 4.4 tag=value messages: the wire form and what parsing it means
    (src/fix.rs), on bytes. */
module FixWire {
  import opened Orders
  import opened ByteStrings

  const U32_MAX: int := 0xffff_ffff
  type U32 = x: int | 0 <= x <= U32_MAX

  const SOH: Byte := 1
  const EQUALS: Byte := 61

  /** "FIX.4.4" */
  const FIX_44: Text := Ascii([70, 73, 88, 46, 52, 46, 52])

  /** A message keyed by tag. Values are strings, so their bytes are UTF-8. */
  type Fields = map<U32, Text>

  datatype FixError =
    | MalformedField
    | MissingField(tag: U32)
    | BodyLengthMismatch(expected: nat, actual: nat)
    | ChecksumMismatch(expected: nat, actual: nat)
    | TagNotInteger
    | SliceOutOfOrder  // not an error value of the source: slicing `start..end` with start > end panics

  datatype Parsed<+T> = Ok(value: T) | Err(error: FixError)

  // ---------------------------------------------------------------------
  // Serialising
  // ---------------------------------------------------------------------

  function Field(tag: U32, value: Bytes): Bytes {
    Decimal(tag) + [EQUALS] + value + [SOH]
  }

  type Record = (U32, Text)

  function Encode(rs: seq<Record>): Bytes {
    if rs == [] then [] else Field(rs[0].0, rs[0].1) + Encode(rs[1..])
  }

  function LeastTag(s: set<U32>): (t: U32)
    requires s != {}
    ensures t in s && forall u :: u in s ==> t <= u
  {
    HasLeast(s);
    var t :| t in s && forall u :: u in s ==> t <= u;
    t
  }

  lemma {:induction false} FindLeast(s: set<U32>) returns (t: U32)
    requires s != {}
    ensures t in s && forall u :: u in s ==> t <= u
  {
    var x :| x in s;
    t := x;
    if s - {x} != {} {
      var least := FindLeast(s - {x});
      if least < x { t := least; }
    }
    forall u | u in s ensures t <= u {
      if u != x { assert u in s - {x}; }
    }
  }

  lemma HasLeast(s: set<U32>)
    requires s != {}
    ensures exists t :: t in s && forall u :: u in s ==> t <= u
  {
    var t := FindLeast(s);
  }

  /** The order in which a `BTreeMap` yields its keys. */
  function Ascending(s: set<U32>): (ts: seq<U32>)
    ensures forall t :: t in ts <==> t in s
    ensures |ts| == |s|
  {
    if s == {} then [] else [LeastTag(s)] + Ascending(s - {LeastTag(s)})
  }

  lemma {:induction false} AscendingIsSorted(s: set<U32>)
    ensures forall i, j :: 0 <= i < j < |Ascending(s)| ==> Ascending(s)[i] < Ascending(s)[j]
  {
    if s != {} {
      var t := LeastTag(s);
      AscendingIsSorted(s - {t});
      var r := Ascending(s - {t});
      hide Ascending, LeastTag;
      forall i, j | 0 <= i < j < |[t] + r| ensures ([t] + r)[i] < ([t] + r)[j] {
        assert r[j - 1] in r;
      }
    }
  }

  function Begin(m: Fields): Text {
    if 8 in m then m[8] else FIX_44
  }

  function ValueOf(m: Fields, t: U32): Text {
    if t in m then m[t] else []
  }

  function Records(m: Fields, ts: seq<U32>): seq<Record> {
    if ts == [] then [] else [(ts[0], ValueOf(m, ts[0]))] + Records(m, ts[1..])
  }

  function BodyTags(m: Fields): seq<U32> {
    Ascending(m.Keys - {8, 9, 10})
  }

  function Body(m: Fields): Bytes {
    Encode(Records(m, BodyTags(m)))
  }

  /** Everything before the checksum field, as records. */
  function HeadRecords(m: Fields): seq<Record> {
    [(8, Begin(m)), (9, Decimal(|Body(m)|))] + Records(m, BodyTags(m))
  }

  function Head(m: Fields): Bytes {
    Encode(HeadRecords(m))
  }

  function CheckDigits(m: Fields): (ds: Text)
    ensures |ds| == 3 && AllDigits(ds)
  {
    Decimal3(Sum(Head(m)) % 256)
  }

  function Wire(m: Fields): Bytes {
    Head(m) + Field(10, CheckDigits(m))
  }

  // ---------------------------------------------------------------------
  // Parsing
  // ---------------------------------------------------------------------

  /** Read one `tag=value` chunk, which must be UTF-8; an empty one is skipped. */
  function ParseChunk(chunk: Bytes, acc: Fields): Parsed<Fields> {
    if chunk == [] then Ok(acc)
    else if !Utf8(chunk) then Err(MalformedField)
    else
      var k := IndexOf(chunk, EQUALS);
      if k == |chunk| then Err(MalformedField)
      else
        var tag := ParseUnsigned(chunk[..k], U32_MAX);
        Utf8Cut(chunk, k);
        if tag.None? then Err(TagNotInteger) else Ok(acc[tag.value := chunk[k + 1..]])
  }

  /** Split at SOH and record each field; a later field overwrites an earlier one. */
  function ParseFields(bytes: Bytes, acc: Fields): Parsed<Fields>
    decreases |bytes|
  {
    var k := IndexOf(bytes, SOH);
    var r := ParseChunk(bytes[..k], acc);
    if r.Err? || k == |bytes| then r else ParseFields(bytes[k + 1..], r.value)
  }

  predicate At9(bytes: Bytes, i: nat) {
    i + 2 <= |bytes| && bytes[i] == 57 && bytes[i + 1] == EQUALS
  }

  predicate At10(bytes: Bytes, i: nat) {
    && i + 3 <= |bytes| && bytes[i] == 49 && bytes[i + 1] == 48 && bytes[i + 2] == EQUALS
    && (i == 0 || bytes[i - 1] == SOH)
  }

  /** Just behind the SOH that follows the first `9=` at or after `idx`. */
  function BodyStart(bytes: Bytes, idx: nat): Option<nat>
    decreases |bytes| - idx
  {
    if idx >= |bytes| then None
    else if At9(bytes, idx) && IndexOf(bytes[idx + 2..], SOH) < |bytes[idx + 2..]|
    then Some(idx + 2 + IndexOf(bytes[idx + 2..], SOH) + 1)
    else BodyStart(bytes, idx + 1)
  }

  /** The last position below `n` where a `10=` field starts. */
  function ChecksumStart(bytes: Bytes, n: nat): Option<nat> {
    if n == 0 then None else if At10(bytes, n - 1) then Some(n - 1) else ChecksumStart(bytes, n - 1)
  }

  datatype Envelope = Envelope(bodyStart: nat, checksumStart: nat)

  function FindEnvelope(bytes: Bytes): (r: Parsed<Envelope>)
    ensures r.Ok? ==> r.value.bodyStart <= r.value.checksumStart <= |bytes|
  {
    var b := BodyStart(bytes, 0);
    var c := ChecksumStart(bytes, |bytes|);
    ChecksumStartBound(bytes, |bytes|);
    if b.None? then Err(MissingField(9))
    else if c.None? then Err(MissingField(10))
    else if b.value > c.value then Err(SliceOutOfOrder)
    else Ok(Envelope(b.value, c.value))
  }

  lemma {:induction false} ChecksumStartBound(bytes: Bytes, n: nat)
    ensures ChecksumStart(bytes, n).Some? ==>
              ChecksumStart(bytes, n).value < n && At10(bytes, ChecksumStart(bytes, n).value)
  {
    if n > 0 && !At10(bytes, n - 1) { ChecksumStartBound(bytes, n - 1); }
  }

  /** Check the envelope of a buffer against its fields. */
  function Verify(bytes: Bytes, msg: Fields, bodyLen: nat, checksum: nat): Parsed<Fields>
    requires 8 in msg
  {
    var e := FindEnvelope(bytes);
    if e.Err? then Err(e.error)
    else
      var actualLen := e.value.checksumStart - e.value.bodyStart;
      var actualSum := Sum(bytes[..e.value.checksumStart]) % 256;
      if actualLen != bodyLen then Err(BodyLengthMismatch(bodyLen, actualLen))
      else if actualSum != checksum then Err(ChecksumMismatch(checksum, actualSum))
      else if msg[8] == [] then Err(MissingField(8))
      else Ok(msg)
  }

  function Parse(bytes: Bytes): Parsed<Fields> {
    var r := ParseFields(bytes, map[]);
    if r.Err? then r
    else
      var msg := r.value;
      if 8 !in msg then Err(MissingField(8))
      else if 9 !in msg then Err(MissingField(9))
      else if 10 !in msg then Err(MissingField(10))
      else
        var bodyLen := ParseUnsigned(msg[9], U64_MAX);
        var checksum := ParseUnsigned(msg[10], U32_MAX);
        if bodyLen.None? || checksum.None? then Err(MalformedField)
        else Verify(bytes, msg, bodyLen.value, checksum.value)
  }
}
