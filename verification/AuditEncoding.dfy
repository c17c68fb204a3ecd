/** Canonical byte layouts of signed orders and audit events (src/signed_order.rs),
    and why they lose nothing. */
module AuditEncoding {
  import opened Orders
  import opened ByteStrings

  // ---------------------------------------------------------------------
  // Little-endian integers
  // ---------------------------------------------------------------------

  function Pow256(k: nat): nat {
    if k == 0 then 1 else 256 * Pow256(k - 1)
  }

  /** The `k` low bytes of `n`, least significant first. */
  function LittleEndian(n: nat, k: nat): (s: Bytes)
    ensures |s| == k
  {
    if k == 0 then [] else [n % 256] + LittleEndian(n / 256, k - 1)
  }

  function FromLittleEndian(s: Bytes): nat {
    if s == [] then 0 else s[0] + 256 * FromLittleEndian(s[1..])
  }

  lemma {:induction false} LittleEndianInverse(n: nat, k: nat)
    requires n < Pow256(k)
    ensures FromLittleEndian(LittleEndian(n, k)) == n
  {
    if k > 0 {
      LittleEndianInverse(n / 256, k - 1);
      assert LittleEndian(n, k)[1..] == LittleEndian(n / 256, k - 1);
    }
  }

  lemma {:induction false} FromLittleEndianBound(s: Bytes)
    ensures FromLittleEndian(s) < Pow256(|s|)
  {
    if s != [] { FromLittleEndianBound(s[1..]); }
  }

  lemma EightBytes()
    ensures Pow256(8) == U64_MAX + 1
  {
    assert Pow256(2) == 0x1_0000;
    assert Pow256(4) == 0x1_0000_0000;
    assert Pow256(6) == 0x1_0000_0000_0000;
  }

  function U64Bytes(n: U64): Bytes {
    LittleEndian(n, 8)
  }

  function ReadU64(s: Bytes): (n: U64)
    requires |s| >= 8
  {
    FromLittleEndianBound(s[..8]);
    EightBytes();
    FromLittleEndian(s[..8])
  }

  lemma ReadsBack(n: U64, rest: Bytes)
    ensures ReadU64(U64Bytes(n) + rest) == n && (U64Bytes(n) + rest)[8..] == rest
  {
    EightBytes();
    LittleEndianInverse(n, 8);
    assert (U64Bytes(n) + rest)[..8] == U64Bytes(n);
  }

  // ---------------------------------------------------------------------
  // Order payloads
  // ---------------------------------------------------------------------

  /** A string's bytes; its length is a u64. */
  type Text = s: Bytes | |s| <= U64_MAX

  datatype OrderSide = Buy | Sell {
    function Tag(): Byte {
      if Buy? then 1 else 2
    }
  }

  datatype OrderPayload = OrderPayload(
    orderId: U64,
    traderId: Text,
    instrument: Text,
    side: OrderSide,
    quantity: U64,
    limitPriceMicros: U64,
    timestampUnix: U64,
    venue: Text
  )

  /** Length, then content. */
  function Prefixed(s: Text): Bytes {
    U64Bytes(|s|) + s
  }

  function PayloadBytes(p: OrderPayload): Bytes {
    U64Bytes(p.orderId) + (Prefixed(p.traderId) + (Prefixed(p.instrument) + ([p.side.Tag()]
      + (U64Bytes(p.quantity) + (U64Bytes(p.limitPriceMicros) + (U64Bytes(p.timestampUnix) + Prefixed(p.venue)))))))
  }

  method PushLen(buf: Bytes, bytes: Text) returns (out: Bytes)
    ensures out == buf + Prefixed(bytes)
  {
    out := buf + U64Bytes(|bytes|);
    out := out + bytes;
  }

  method CanonicalPayload(p: OrderPayload) returns (buf: Bytes)
    ensures buf == PayloadBytes(p)
  {
    hide U64Bytes, Prefixed;
    buf := [];
    buf := buf + U64Bytes(p.orderId);
    buf := PushLen(buf, p.traderId);
    buf := PushLen(buf, p.instrument);
    buf := buf + [p.side.Tag()];
    buf := buf + U64Bytes(p.quantity);
    buf := buf + U64Bytes(p.limitPriceMicros);
    buf := buf + U64Bytes(p.timestampUnix);
    buf := PushLen(buf, p.venue);
  }

  // Reading a payload back, field by field.

  datatype Read<+T> = NoRead | Read(value: T, rest: Bytes)

  function TakeU64(s: Bytes): Read<U64> {
    if |s| < 8 then NoRead else Read(ReadU64(s), s[8..])
  }

  function TakeText(s: Bytes): Read<Text> {
    var n := TakeU64(s);
    if n.NoRead? || n.value > |n.rest| then NoRead else Read(n.rest[..n.value], n.rest[n.value..])
  }

  function TakeSide(s: Bytes): Read<OrderSide> {
    if s != [] && s[0] == 1 then Read(Buy, s[1..])
    else if s != [] && s[0] == 2 then Read(Sell, s[1..])
    else NoRead
  }

  function DecodePayload(s: Bytes): Option<OrderPayload> {
    var id := TakeU64(s);
    if id.NoRead? then None else
    var trader := TakeText(id.rest);
    if trader.NoRead? then None else
    var instrument := TakeText(trader.rest);
    if instrument.NoRead? then None else
    var side := TakeSide(instrument.rest);
    if side.NoRead? then None else
    var quantity := TakeU64(side.rest);
    if quantity.NoRead? then None else
    var price := TakeU64(quantity.rest);
    if price.NoRead? then None else
    var time := TakeU64(price.rest);
    if time.NoRead? then None else
    var venue := TakeText(time.rest);
    if venue.NoRead? || venue.rest != [] then None else
    Some(OrderPayload(id.value, trader.value, instrument.value, side.value,
                      quantity.value, price.value, time.value, venue.value))
  }

  lemma TakesU64(n: U64, rest: Bytes)
    ensures TakeU64(U64Bytes(n) + rest) == Read(n, rest)
  {
    ReadsBack(n, rest);
  }

  lemma TakesText(s: Text, rest: Bytes)
    ensures TakeText(Prefixed(s) + rest) == Read(s, rest)
  {
    hide U64Bytes, ReadU64;
    assert Prefixed(s) + rest == U64Bytes(|s|) + (s + rest);
    TakesU64(|s|, s + rest);
    assert (s + rest)[..|s|] == s && (s + rest)[|s|..] == rest;
  }

  lemma TakesSide(side: OrderSide, rest: Bytes)
    ensures TakeSide([side.Tag()] + rest) == Read(side, rest)
  {}

  /** The decoder inverts the canonical encoding. */
  lemma PayloadRoundTrip(p: OrderPayload)
    ensures DecodePayload(PayloadBytes(p)) == Some(p)
  {
    hide U64Bytes, Prefixed, TakeU64, TakeText, TakeSide;
    var s8 := Prefixed(p.venue);
    var s7 := U64Bytes(p.timestampUnix) + s8;
    var s6 := U64Bytes(p.limitPriceMicros) + s7;
    var s5 := U64Bytes(p.quantity) + s6;
    var s4 := [p.side.Tag()] + s5;
    var s3 := Prefixed(p.instrument) + s4;
    var s2 := Prefixed(p.traderId) + s3;
    TakesU64(p.orderId, s2);
    TakesText(p.traderId, s3);
    TakesText(p.instrument, s4);
    TakesSide(p.side, s5);
    TakesU64(p.quantity, s6);
    TakesU64(p.limitPriceMicros, s7);
    TakesU64(p.timestampUnix, s8);
    TakesText(p.venue, []);
    assert s8 + [] == s8;
  }

  /** Distinct payloads have distinct canonical bytes. */
  lemma PayloadBytesInjective(p: OrderPayload, q: OrderPayload)
    requires PayloadBytes(p) == PayloadBytes(q)
    ensures p == q
  {
    hide PayloadBytes, DecodePayload;
    PayloadRoundTrip(p);
    PayloadRoundTrip(q);
  }

  // ---------------------------------------------------------------------
  // Audit events
  // ---------------------------------------------------------------------

  type Digest = s: Bytes | |s| == 32 witness seq(32, _ => 0)

  const ZERO: Digest := seq(32, _ => 0)

  datatype AuditEventKind =
    | OrderAccepted | OrderRejected | OrderPartiallyFilled | OrderFullyFilled | OrderCancelled | OrderExpired
  {
    function Tag(): Byte {
      match this
      case OrderAccepted => 1
      case OrderRejected => 2
      case OrderPartiallyFilled => 3
      case OrderFullyFilled => 4
      case OrderCancelled => 5
      case OrderExpired => 6
    }
  }

  datatype AuditEvent = AuditEvent(
    sequence: U64,
    kind: AuditEventKind,
    orderDigest: Digest,
    prevHash: Digest,
    timestampUnix: U64
  )

  function EventBytes(e: AuditEvent): (s: Bytes)
    ensures |s| == 81
  {
    U64Bytes(e.sequence) + [e.kind.Tag()] + e.orderDigest + e.prevHash + U64Bytes(e.timestampUnix)
  }

  /** The fixed 81-byte buffer, filled range by range. */
  method CanonicalEvent(e: AuditEvent) returns (buf: array<Byte>)
    ensures fresh(buf) && buf[..] == EventBytes(e)
  {
    hide U64Bytes;
    var sequence, time := U64Bytes(e.sequence), U64Bytes(e.timestampUnix);
    assert |sequence| == 8 && |time| == 8 by { U64Length(e.sequence); U64Length(e.timestampUnix); }
    buf := new Byte[81](_ => 0);
    forall i | 0 <= i < 8 { buf[i] := sequence[i]; }
    buf[8] := e.kind.Tag();
    forall i | 0 <= i < 32 { buf[9 + i] := e.orderDigest[i]; }
    forall i | 0 <= i < 32 { buf[41 + i] := e.prevHash[i]; }
    forall i | 0 <= i < 8 { buf[73 + i] := time[i]; }
    assert buf[..8] == sequence && buf[9..41] == e.orderDigest && buf[41..73] == e.prevHash && buf[73..] == time;
    assert buf[..] == buf[..8] + [buf[8]] + buf[9..41] + buf[41..73] + buf[73..];
  }

  lemma U64Length(n: U64)
    ensures |U64Bytes(n)| == 8
  {}

  /** Distinct events have distinct canonical bytes. */
  lemma EventBytesInjective(e: AuditEvent, f: AuditEvent)
    requires EventBytes(e) == EventBytes(f)
    ensures e == f
  {
    EventParts(e);
    EventParts(f);
    U64Injective(e.sequence, f.sequence);
    U64Injective(e.timestampUnix, f.timestampUnix);
    assert e.kind == f.kind;
  }

  lemma EventParts(e: AuditEvent)
    ensures var s := EventBytes(e);
      && s[..8] == U64Bytes(e.sequence) && s[8] == e.kind.Tag() && s[9..41] == e.orderDigest
      && s[41..73] == e.prevHash && s[73..] == U64Bytes(e.timestampUnix)
  {
    hide U64Bytes;
    U64Length(e.sequence);
    U64Length(e.timestampUnix);
  }

  lemma U64Injective(m: U64, n: U64)
    ensures U64Bytes(m) == U64Bytes(n) ==> m == n
  {
    EightBytes();
    LittleEndianInverse(m, 8);
    LittleEndianInverse(n, 8);
  }

  // ---------------------------------------------------------------------
  // The layouts byte by byte
  // ---------------------------------------------------------------------

  /** A byte and, above it, what the bytes behind it hold. */
  function Above(b: Byte, more: int): int {
    0x100 * more + b
  }

  /** The eight bytes at `at` are `n`, least significant first. */
  predicate HoldsU64(s: Bytes, at: nat, n: U64) {
    && at + 8 <= |s|
    && n == Above(s[at], Above(s[at + 1], Above(s[at + 2], Above(s[at + 3],
            Above(s[at + 4], Above(s[at + 5], Above(s[at + 6], Above(s[at + 7], 0))))))))
  }

  /** The bytes at `at` are `part`. */
  predicate Holds(s: Bytes, at: nat, part: Bytes) {
    at + |part| <= |s| && s[at..at + |part|] == part
  }

  lemma {:induction false} ReadFrom(s: Bytes, at: nat, k: nat)
    requires at + k <= |s|
    ensures FromLittleEndian(s[at..at + k]) == if k == 0 then 0 else s[at] + 256 * FromLittleEndian(s[at + 1..at + k])
  {
    if k > 0 { assert s[at..at + k][1..] == s[at + 1..at + k]; }
  }

  lemma U64BytesHold(s: Bytes, at: nat, n: U64)
    requires Holds(s, at, U64Bytes(n))
    ensures HoldsU64(s, at, n)
  {
    U64Length(n);
    EightBytes();
    LittleEndianInverse(n, 8);
    assert FromLittleEndian(s[at..at + 8]) == n;
    hide FromLittleEndian, LittleEndian;
    ReadFrom(s, at, 8);
    ReadFrom(s, at + 1, 7);
    ReadFrom(s, at + 2, 6);
    ReadFrom(s, at + 3, 5);
    ReadFrom(s, at + 4, 4);
    ReadFrom(s, at + 5, 3);
    ReadFrom(s, at + 6, 2);
    ReadFrom(s, at + 7, 1);
    ReadFrom(s, at + 8, 0);
  }

  /** The 81 bytes of an event, with the values of the kind tag written out. */
  lemma EventLayout(e: AuditEvent)
    ensures var s := EventBytes(e);
      && |s| == 81 && HoldsU64(s, 0, e.sequence) && Holds(s, 9, e.orderDigest) && Holds(s, 41, e.prevHash)
      && HoldsU64(s, 73, e.timestampUnix)
      && (e.kind == OrderAccepted <==> s[8] == 1) && (e.kind == OrderRejected <==> s[8] == 2)
      && (e.kind == OrderPartiallyFilled <==> s[8] == 3) && (e.kind == OrderFullyFilled <==> s[8] == 4)
      && (e.kind == OrderCancelled <==> s[8] == 5) && (e.kind == OrderExpired <==> s[8] == 6)
  {
    hide U64Bytes, HoldsU64;
    EventParts(e);
    U64Length(e.sequence);
    U64Length(e.timestampUnix);
    var s := EventBytes(e);
    U64BytesHold(s, 0, e.sequence);
    U64BytesHold(s, 73, e.timestampUnix);
  }

  /** The head of an empty log is 32 zero bytes. */
  lemma ZeroIsZero(i: nat)
    requires i < 32
    ensures |ZERO| == 32 && ZERO[i] == 0
  {}

  lemma PartsHold(a: Bytes, b: Bytes, rest: Bytes)
    ensures Holds(a + (b + rest), |a|, b) && a + (b + rest) == (a + b) + rest
  {
    var s := a + (b + rest);
    assert s == (a + b) + rest && s[|a|..|a| + |b|] == b;
  }

  /** The fields of a payload from the side on. */
  function FromSide(p: OrderPayload): Bytes {
    [p.side.Tag()]
    + (U64Bytes(p.quantity) + (U64Bytes(p.limitPriceMicros) + (U64Bytes(p.timestampUnix) + Prefixed(p.venue))))
  }

  lemma FrontLayout(p: OrderPayload) returns (at: Bytes)
    ensures |at| == 24 + |p.traderId| + |p.instrument| && PayloadBytes(p) == at + FromSide(p)
    ensures var s := PayloadBytes(p);
      && HoldsU64(s, 0, p.orderId)
      && HoldsU64(s, 8, |p.traderId|) && Holds(s, 16, p.traderId)
      && HoldsU64(s, 16 + |p.traderId|, |p.instrument|) && Holds(s, 24 + |p.traderId|, p.instrument)
  {
    hide U64Bytes, HoldsU64, Holds;
    var s4 := FromSide(p);
    var s3 := Prefixed(p.instrument) + s4;
    var s2 := Prefixed(p.traderId) + s3;
    assert PayloadBytes(p) == [] + (U64Bytes(p.orderId) + s2);
    hide PayloadBytes, Prefixed, FromSide;
    at := U64Follows([], p.orderId, s2);
    at := TextFollows(at, p.traderId, s3);
    at := TextFollows(at, p.instrument, s4);
  }

  lemma BackLayout(p: OrderPayload, front: Bytes)
    ensures var s, side := front + FromSide(p), |front|;
      && |s| == side + 33 + |p.venue|
      && s[side] == (if p.side == Buy then 1 else 2)
      && HoldsU64(s, side + 1, p.quantity) && HoldsU64(s, side + 9, p.limitPriceMicros)
      && HoldsU64(s, side + 17, p.timestampUnix)
      && HoldsU64(s, side + 25, |p.venue|) && Holds(s, side + 33, p.venue)
  {
    hide U64Bytes, HoldsU64, Holds;
    var s8 := Prefixed(p.venue);
    var s7 := U64Bytes(p.timestampUnix) + s8;
    var s6 := U64Bytes(p.limitPriceMicros) + s7;
    var s5 := U64Bytes(p.quantity) + s6;
    assert s8 + [] == s8;
    hide Prefixed;
    TagFollows(front, p.side, s5);
    var at := U64Follows(front + [p.side.Tag()], p.quantity, s6);
    at := U64Follows(at, p.limitPriceMicros, s7);
    at := U64Follows(at, p.timestampUnix, s8);
    at := TextFollows(at, p.venue, []);
  }

  /** Where each field of an order payload is: fixed-size integers, texts behind their
      lengths, and 1 or 2 for the side. */
  lemma PayloadLayout(p: OrderPayload)
    ensures var s := PayloadBytes(p);
      var trader, instrument, venue := |p.traderId|, |p.instrument|, |p.venue|;
      var side := 24 + trader + instrument;
      && |s| == side + 33 + venue
      && HoldsU64(s, 0, p.orderId)
      && HoldsU64(s, 8, trader) && Holds(s, 16, p.traderId)
      && HoldsU64(s, 16 + trader, instrument) && Holds(s, 24 + trader, p.instrument)
      && s[side] == (if p.side == Buy then 1 else 2)
      && HoldsU64(s, side + 1, p.quantity) && HoldsU64(s, side + 9, p.limitPriceMicros)
      && HoldsU64(s, side + 17, p.timestampUnix)
      && HoldsU64(s, side + 25, venue) && Holds(s, side + 33, p.venue)
  {
    hide HoldsU64, Holds, PayloadBytes, FromSide;
    var front := FrontLayout(p);
    BackLayout(p, front);
  }

  /** Behind `at` stands an integer, and then `rest`. */
  lemma U64Follows(at: Bytes, n: U64, rest: Bytes) returns (next: Bytes)
    ensures next == at + U64Bytes(n) && |next| == |at| + 8
    ensures var s := at + (U64Bytes(n) + rest); HoldsU64(s, |at|, n) && s == next + rest
  {
    hide U64Bytes, HoldsU64;
    next := at + U64Bytes(n);
    PartsHold(at, U64Bytes(n), rest);
    U64BytesHold(at + (U64Bytes(n) + rest), |at|, n);
    U64Length(n);
  }

  lemma TextFollows(at: Bytes, t: Text, rest: Bytes) returns (next: Bytes)
    ensures |next| == |at| + 8 + |t|
    ensures var s := at + (Prefixed(t) + rest);
      HoldsU64(s, |at|, |t|) && Holds(s, |at| + 8, t) && s == next + rest
  {
    hide U64Bytes, HoldsU64, Holds;
    var n := U64Follows(at, |t|, t + rest);
    assert Prefixed(t) + rest == U64Bytes(|t|) + (t + rest);
    PartsHold(n, t, rest);
    next := n + t;
  }

  lemma TagFollows(at: Bytes, side: OrderSide, rest: Bytes)
    ensures var s := at + ([side.Tag()] + rest);
      s[|at|] == (if side == Buy then 1 else 2) && s == (at + [side.Tag()]) + rest
  {}
}
