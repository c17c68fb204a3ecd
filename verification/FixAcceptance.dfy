/** What a buffer must be for the parser to accept it, and what error it gets
    otherwise, read off its bytes and fields. */
module FixAcceptance {
  import opened Orders
  import opened ByteStrings
  import opened FixWire
  import opened FixSlicing
  import opened FixFields

  // ---------------------------------------------------------------------
  // The envelope in the bytes
  // ---------------------------------------------------------------------

  /** The bytes `9=` with a separator somewhere behind them. */
  predicate LengthStarts(bytes: Bytes, i: nat) {
    i + 2 <= |bytes| && bytes[i] == 57 && bytes[i + 1] == 61 && 1 in bytes[i + 2..]
  }

  /** The bytes `10=` at the start of the buffer or behind a separator. */
  predicate ChecksumStarts(bytes: Bytes, c: nat) {
    && c + 3 <= |bytes| && bytes[c] == 49 && bytes[c + 1] == 48 && bytes[c + 2] == 61
    && (c == 0 || bytes[c - 1] == 1)
  }

  /** The first length tag is at `i`, and `s` is just behind the first separator behind it. */
  predicate BodyBehind(bytes: Bytes, i: nat, s: nat) {
    && i + 2 < s <= |bytes| && LengthStarts(bytes, i) && (forall j :: 0 <= j < i ==> !LengthStarts(bytes, j))
    && bytes[s - 1] == 1 && (forall j :: i + 2 <= j < s - 1 ==> bytes[j] != 1)
  }

  /** The body begins at `s`: just behind the first separator behind the first length tag. */
  ghost predicate BodyBegins(bytes: Bytes, s: nat) {
    exists i: nat :: BodyBehind(bytes, i, s)
  }

  /** `c` is the start of the last checksum field. */
  predicate BodyEnds(bytes: Bytes, c: nat) {
    ChecksumStarts(bytes, c) && forall j :: c < j < |bytes| ==> !ChecksumStarts(bytes, j)
  }

  /** The sum of the bytes. */
  function ByteSum(s: Bytes): nat {
    if s == [] then 0 else ByteSum(s[..|s| - 1]) + s[|s| - 1]
  }

  lemma {:induction false} SumSnoc(s: Bytes, b: Byte)
    ensures Sum(s + [b]) == Sum(s) + b
  {
    if s == [] {
      assert [b][1..] == [] && s + [b] == [b];
    } else {
      assert (s + [b])[1..] == s[1..] + [b];
      SumSnoc(s[1..], b);
    }
  }

  lemma {:induction false} SumIsByteSum(s: Bytes)
    ensures Sum(s) == ByteSum(s)
  {
    if s != [] {
      SumIsByteSum(s[..|s| - 1]);
      SumSnoc(s[..|s| - 1], s[|s| - 1]);
      assert s[..|s| - 1] + [s[|s| - 1]] == s;
    }
  }

  lemma TagsAgree(bytes: Bytes)
    ensures forall j: nat :: LengthTagAt(bytes, j) == LengthStarts(bytes, j)
    ensures forall j: nat :: At10(bytes, j) == ChecksumStarts(bytes, j)
  {}

  /** The body begins at one place at most. */
  lemma {:induction false} OneBody(bytes: Bytes, s: nat, t: nat)
    requires BodyBegins(bytes, s) && BodyBegins(bytes, t)
    ensures s == t
  {
    hide LengthStarts;
    var i: nat :| BodyBehind(bytes, i, s);
    var k: nat :| BodyBehind(bytes, k, t);
    assert i == k;
  }

  lemma NoBody(bytes: Bytes, s: nat)
    requires forall i :: 0 <= i < |bytes| ==> !LengthStarts(bytes, i)
    ensures !BodyBegins(bytes, s)
  {
    hide LengthStarts;
  }

  /** The forward scan finds where the body begins, if anywhere. */
  lemma {:induction false} BodyStartIs(bytes: Bytes)
    ensures match BodyStart(bytes, 0)
      case None => forall s: nat :: !BodyBegins(bytes, s)
      case Some(s) => BodyBegins(bytes, s) && forall t: nat :: BodyBegins(bytes, t) ==> t == s
  {
    hide BodyStart, LengthTagAt, LengthStarts;
    var i := ForwardScan(bytes, 0);
    TagsAgree(bytes);
    if BodyStart(bytes, 0).Some? {
      var s := BodyStart(bytes, 0).value;
      assert BodyBehind(bytes, i, s);
      forall t: nat | BodyBegins(bytes, t) ensures t == s { OneBody(bytes, s, t); }
    } else {
      forall s: nat ensures !BodyBegins(bytes, s) { NoBody(bytes, s); }
    }
  }

  /** The backward scan finds where it ends. */
  lemma {:induction false} ChecksumStartIs(bytes: Bytes)
    ensures match ChecksumStart(bytes, |bytes|)
      case None => forall c: nat :: !BodyEnds(bytes, c)
      case Some(c) => BodyEnds(bytes, c) && forall d: nat :: BodyEnds(bytes, d) ==> d == c
  {
    hide ChecksumStart, At10;
    BackwardScan(bytes, |bytes|);
    TagsAgree(bytes);
    forall c: nat | BodyEnds(bytes, c) ensures ChecksumStart(bytes, |bytes|) == Some(c) {
      assert c < |bytes|;
    }
  }

  // ---------------------------------------------------------------------
  // Acceptance
  // ---------------------------------------------------------------------

  /** The envelope fields agree with the bytes: tag 9 is the length of the body, tag 10
      the sum of all bytes before its field modulo 256, and tag 8 is not empty. */
  ghost predicate EnvelopeAgrees(bytes: Bytes, v: Fields) {
    && 8 in v && 9 in v && 10 in v && v[8] != []
    && exists s: nat, c: nat ::
         && BodyBegins(bytes, s) && BodyEnds(bytes, c) && s <= c
         && Reads(v[9], c - s) && c - s <= 0xffff_ffff_ffff_ffff
         && Reads(v[10], ByteSum(bytes[..c]) % 256)
  }

  /** Each field error apart, what parsing does with the fields `v` of a buffer. */
  ghost predicate IsReply(bytes: Bytes, v: Fields, r: Parsed<Fields>) {
    if 8 !in v then r == Err(MissingField(8))
    else if 9 !in v then r == Err(MissingField(9))
    else if 10 !in v then r == Err(MissingField(10))
    else if forall n :: 0 <= n <= 0xffff_ffff_ffff_ffff ==> !Reads(v[9], n) then r == Err(MalformedField)
    else if forall n :: 0 <= n <= 0xffff_ffff ==> !Reads(v[10], n) then r == Err(MalformedField)
    else if forall s: nat :: !BodyBegins(bytes, s) then r == Err(MissingField(9))
    else if forall c: nat :: !BodyEnds(bytes, c) then r == Err(MissingField(10))
    else
      exists s: nat, c: nat, length: nat, sum: nat ::
        && BodyBegins(bytes, s) && BodyEnds(bytes, c)
        && Reads(v[9], length) && length <= 0xffff_ffff_ffff_ffff && Reads(v[10], sum) && sum <= 0xffff_ffff
        && r == if s > c then Err(SliceOutOfOrder)
                else if c - s != length then Err(BodyLengthMismatch(length, c - s))
                else if ByteSum(bytes[..c]) % 256 != sum then Err(ChecksumMismatch(sum, ByteSum(bytes[..c]) % 256))
                else if v[8] == [] then Err(MissingField(8))
                else Ok(v)
  }

  /** Parsing replies with the field error, or as its fields and envelope decide. */
  lemma {:induction false} ParseOutcome(bytes: Bytes)
    ensures match ParseFields(bytes, map[])
      case Err(e) => Parse(bytes) == Err(e)
      case Ok(v) => IsReply(bytes, v, Parse(bytes))
  {
    var fields := ParseFields(bytes, map[]);
    hide ParseFields, ParseUnsigned, BodyStart, ChecksumStart, Sum, ByteSum, BodyBegins, BodyEnds, Reads;
    BodyStartIs(bytes);
    ChecksumStartIs(bytes);
    if fields.Ok? && 8 in fields.value && 9 in fields.value && 10 in fields.value {
      var v := fields.value;
      ParsesWhatReads(v[9], U64_MAX);
      ParsesWhatReads(v[10], U32_MAX);
      var e := FindEnvelope(bytes);
      if e.Ok? { SumIsByteSum(bytes[..e.value.checksumStart]); }
    }
  }

  /** With fields that parse, a buffer is accepted exactly if its envelope agrees; a
      wrong length or sum is an error. */
  lemma {:induction false} EnvelopeDecides(bytes: Bytes)
    ensures match ParseFields(bytes, map[])
      case Err(_) => Parse(bytes).Err?
      case Ok(v) => if EnvelopeAgrees(bytes, v) then Parse(bytes) == Ok(v) else Parse(bytes).Err?
  {
    hide ParseFields, Parse, BodyBegins, BodyEnds, Reads, ByteSum;
    ParseOutcome(bytes);
    BodyStartIs(bytes);
    ChecksumStartIs(bytes);
    if ParseFields(bytes, map[]).Ok? {
      var v := ParseFields(bytes, map[]).value;
      if EnvelopeAgrees(bytes, v) {
        forall n, m | Reads(v[9], n) && Reads(v[9], m) ensures n == m { ReadsOne(v[9], n, m); }
        forall n, m | Reads(v[10], n) && Reads(v[10], m) ensures n == m { ReadsOne(v[10], n, m); }
      }
    }
  }

  /** The pieces are those of the buffer, every one is readable, and `v` are their fields. */
  ghost predicate AreFields(bytes: Bytes, ps: seq<Bytes>, v: Fields) {
    && Plain(ps) && Join(ps) == bytes
    && (forall i :: 0 <= i < |ps| ==> IsReadable(ps[i])) && Holds(ps, map[], v)
  }

  /** `v` are the fields of the buffer, and its envelope agrees with them. */
  ghost predicate IsAcceptable(bytes: Bytes, v: Fields) {
    (exists ps :: AreFields(bytes, ps, v)) && EnvelopeAgrees(bytes, v)
  }

  lemma HoldsAt(ps: seq<Bytes>, m: Fields, t: U32, x: Text)
    requires Holds(ps, map[], m)
    ensures (t in m && m[t] == x) <==> LastIs(ps, t, x)
  {}

  lemma SameFields(ps: seq<Bytes>, v: Fields, w: Fields)
    requires Holds(ps, map[], v) && Holds(ps, map[], w)
    ensures v == w
  {
    hide LastIs, Holds;
    forall t | t in v ensures t in w && w[t] == v[t] {
      HoldsAt(ps, v, t, v[t]);
      HoldsAt(ps, w, t, v[t]);
    }
    forall t | t in w ensures t in v {
      HoldsAt(ps, w, t, w[t]);
      HoldsAt(ps, v, t, w[t]);
    }
  }

  /** The parser accepts a buffer with fields `v` if and only if it is acceptable with
      these fields. */
  lemma {:induction false} AcceptedExactlyWhen(bytes: Bytes, v: Fields)
    ensures Parse(bytes) == Ok(v) <==> IsAcceptable(bytes, v)
  {
    hide ParseFields, Parse, EnvelopeAgrees, Join, Holds, IsReadable;
    EnvelopeDecides(bytes);
    if Parse(bytes) == Ok(v) {
      var ps := Pieces(bytes);
      FieldsOutcome(ps, map[]);
      assert AreFields(bytes, ps, v);
    }
    if IsAcceptable(bytes, v) {
      var ps :| AreFields(bytes, ps, v);
      FieldsOutcome(ps, map[]);
      if ParseFields(bytes, map[]).Ok? { SameFields(ps, v, ParseFields(bytes, map[]).value); }
    }
  }
}
