/** The append-only audit log (src/signed_order.rs:174-234) over an arbitrary hash.
    No property of the hash is assumed: where tampering would need a collision, the
    two colliding byte strings are exhibited among those the logs hashed. */
module AuditChain {
  import opened Orders
  import opened ByteStrings
  import opened AuditEncoding

  type Hasher = Bytes -> Digest

  // ---------------------------------------------------------------------
  // Chains
  // ---------------------------------------------------------------------

  /** The head hash a list of events should have. */
  function ChainHead(hash: Hasher, es: seq<AuditEvent>): Digest {
    if es == [] then ZERO else hash(EventBytes(es[|es| - 1]))
  }

  /** Every event carries the head of what precedes it. */
  predicate Chained(hash: Hasher, es: seq<AuditEvent>) {
    es == [] || (es[|es| - 1].prevHash == ChainHead(hash, es[..|es| - 1]) && Chained(hash, es[..|es| - 1]))
  }

  /** One appended outcome. */
  datatype Entry = Entry(payload: OrderPayload, kind: AuditEventKind, timestampUnix: U64)

  /** The events a history of appends produces. */
  function EventsOf(hash: Hasher, h: seq<Entry>): (es: seq<AuditEvent>)
    requires |h| <= U64_MAX
    ensures |es| == |h|
  {
    if h == [] then []
    else
      var es, e := EventsOf(hash, h[..|h| - 1]), h[|h| - 1];
      es + [AuditEvent(|es|, e.kind, hash(PayloadBytes(e.payload)), ChainHead(hash, es), e.timestampUnix)]
  }

  class OrderAuditLog {
    const hash: Hasher
    var events: seq<AuditEvent>
    var head: Digest

    constructor (hash: Hasher)
      ensures this.hash == hash && events == [] && head == ZERO
    {
      this.hash := hash;
      events, head := [], ZERO;
    }

    /** The log is what the history `h` of appends leaves. */
    ghost predicate Records(h: seq<Entry>)
      reads this
    {
      |h| <= U64_MAX && events == EventsOf(hash, h) && head == ChainHead(hash, events)
    }

    method Append(payload: OrderPayload, kind: AuditEventKind, timestampUnix: U64)
      requires |events| <= U64_MAX
      modifies this
      ensures var e := AuditEvent(old(|events|), kind, hash(PayloadBytes(payload)), old(head), timestampUnix);
        events == old(events) + [e] && head == hash(EventBytes(e))
      ensures forall h: seq<Entry> :: old(Records(h)) && |h| < U64_MAX ==>
                Records(h + [Entry(payload, kind, timestampUnix)])
    {
      hide PayloadBytes, EventBytes;
      var bytes := CanonicalPayload(payload);
      var event := AuditEvent(|events|, kind, hash(bytes), head, timestampUnix);
      var buf := CanonicalEvent(event);
      head := hash(buf[..]);
      events := events + [event];
      assert events[..|events| - 1] == old(events);
      forall h: seq<Entry> | old(Records(h)) && |h| < U64_MAX
        ensures Records(h + [Entry(payload, kind, timestampUnix)])
      {
        assert (h + [Entry(payload, kind, timestampUnix)])[..|h|] == h;
      }
    }

    /** Recompute the chain: true exactly if every link and the head are right. */
    method Verify() returns (ok: bool)
      ensures ok <==> Chained(hash, events) && head == ChainHead(hash, events)
    {
      hide EventBytes;
      var prev := ZERO;
      var i := 0;
      while i < |events|
        invariant 0 <= i <= |events|
        invariant prev == ChainHead(hash, events[..i]) && Chained(hash, events[..i])
      {
        ghost var next := events[..i + 1];
        assert next[..|next| - 1] == events[..i] && next[|next| - 1] == events[i];
        if events[i].prevHash != prev {
          ChainedPrefix(hash, events, i + 1);
          return false;
        }
        var buf := CanonicalEvent(events[i]);
        prev := hash(buf[..]);
        i := i + 1;
      }
      assert events[..i] == events;
      ok := prev == head;
    }
  }

  lemma {:induction false} ChainedPrefix(hash: Hasher, es: seq<AuditEvent>, k: nat)
    requires k <= |es|
    ensures Chained(hash, es) ==> Chained(hash, es[..k])
  {
    if k < |es| && Chained(hash, es) {
      ChainedPrefix(hash, es[..|es| - 1], k);
      assert es[..|es| - 1][..k] == es[..k];
    } else {
      assert k == |es| ==> es[..k] == es;
    }
  }

  /** The event's link when `before` are the events in front of it: the hash of the
      last one, or 32 zero bytes if there is none. */
  predicate IsLink(hash: Hasher, before: seq<AuditEvent>, link: Digest) {
    if before == [] then forall j :: 0 <= j < 32 ==> link[j] == 0
    else link == hash(EventBytes(before[|before| - 1]))
  }

  /** A log verifies as far as its links go exactly if every event carries the hash of
      the one before, and the first carries zeros. */
  lemma {:induction false} ChainedPairwise(hash: Hasher, es: seq<AuditEvent>)
    ensures Chained(hash, es) <==> forall i :: 0 <= i < |es| ==> IsLink(hash, es[..i], es[i].prevHash)
  {
    hide EventBytes;
    if es != [] {
      var m := |es| - 1;
      ChainedPairwise(hash, es[..m]);
      assert forall i :: 0 <= i <= m ==> es[..m][..i] == es[..i];
      assert IsLink(hash, es[..m], es[m].prevHash) <==> es[m].prevHash == ChainHead(hash, es[..m]);
      assert forall i :: 0 <= i < m ==> es[..m][i] == es[i];
    }
  }

  /** Every history of appends leaves a log that verifies. */
  lemma {:induction false} AppendedLogsVerify(hash: Hasher, h: seq<Entry>)
    requires |h| <= U64_MAX
    ensures Chained(hash, EventsOf(hash, h))
  {
    if h != [] {
      AppendedLogsVerify(hash, h[..|h| - 1]);
      var es := EventsOf(hash, h);
      assert es[..|es| - 1] == EventsOf(hash, h[..|h| - 1]);
    }
  }

  // ---------------------------------------------------------------------
  // Tamper evidence
  // ---------------------------------------------------------------------

  /** The byte strings hashed for the events of a log. */
  function HashedEvents(es: seq<AuditEvent>): set<Bytes> {
    set e | e in es :: EventBytes(e)
  }

  /** Two different byte strings, one of each set, have the same hash. */
  ghost predicate Collision(hash: Hasher, xs: set<Bytes>, ys: set<Bytes>) {
    exists x, y :: x in xs && y in ys && x != y && hash(x) == hash(y)
  }

  lemma CollisionGrows(hash: Hasher, xs: set<Bytes>, ys: set<Bytes>, xs': set<Bytes>, ys': set<Bytes>)
    requires Collision(hash, xs, ys) && xs <= xs' && ys <= ys'
    ensures Collision(hash, xs', ys')
  {
    var x, y :| x in xs && y in ys && x != y && hash(x) == hash(y);
    assert x in xs' && y in ys';
  }

  /** The longer list has an event that hashes to the head of an empty log, at the
      place where the shorter list would start. */
  predicate StartsAtZero(hash: Hasher, longer: seq<AuditEvent>, shorter: seq<AuditEvent>) {
    |longer| > |shorter| && hash(EventBytes(longer[|longer| - |shorter| - 1])) == ZERO
  }

  /** Two lists of events that both verify against one head, however they came about,
      are the same list, or the hash collides on bytes of the two lists, or they are
      of different length and the surplus of the longer one hashes to zero. */
  lemma {:induction false} SameHeadSameEvents(hash: Hasher, es: seq<AuditEvent>, fs: seq<AuditEvent>)
    requires Chained(hash, es) && Chained(hash, fs) && ChainHead(hash, es) == ChainHead(hash, fs)
    ensures || es == fs
            || Collision(hash, HashedEvents(es), HashedEvents(fs))
            || StartsAtZero(hash, es, fs)
            || StartsAtZero(hash, fs, es)
    decreases |es|
  {
    hide EventBytes, Chained, Collision, HashedEvents, StartsAtZero;
    if es == [] || fs == [] {
      SurplusAtStart(hash, es, fs);
    } else {
      var m, n := |es| - 1, |fs| - 1;
      LastLink(hash, es);
      LastLink(hash, fs);
      if EventBytes(es[m]) == EventBytes(fs[n]) {
        EventBytesInjective(es[m], fs[n]);
        SameHeadSameEvents(hash, es[..m], fs[..n]);
        SurplusGrows(hash, es, fs);
        SurplusGrows(hash, fs, es);
        if es[..m] == fs[..n] {
          assert es == es[..m] + [es[m]] && fs == fs[..n] + [fs[n]];
        } else if Collision(hash, HashedEvents(es[..m]), HashedEvents(fs[..n])) {
          HashedPrefix(es, m);
          HashedPrefix(fs, n);
          CollisionGrows(hash, HashedEvents(es[..m]), HashedEvents(fs[..n]), HashedEvents(es), HashedEvents(fs));
        }
      } else {
        EventsCollide(hash, es, fs, m, n);
      }
    }
  }

  lemma SurplusAtStart(hash: Hasher, es: seq<AuditEvent>, fs: seq<AuditEvent>)
    requires (es == [] || fs == []) && ChainHead(hash, es) == ChainHead(hash, fs)
    ensures es == fs || StartsAtZero(hash, es, fs) || StartsAtZero(hash, fs, es)
  {
    hide EventBytes;
  }

  lemma SurplusGrows(hash: Hasher, es: seq<AuditEvent>, fs: seq<AuditEvent>)
    requires es != [] && fs != []
    ensures StartsAtZero(hash, es[..|es| - 1], fs[..|fs| - 1]) ==> StartsAtZero(hash, es, fs)
  {
    hide EventBytes;
  }

  lemma {:induction false} LastLink(hash: Hasher, es: seq<AuditEvent>)
    requires es != [] && Chained(hash, es)
    ensures var m := |es| - 1; es[m].prevHash == ChainHead(hash, es[..m]) && Chained(hash, es[..m])
  {}

  lemma HashedPrefix(es: seq<AuditEvent>, k: nat)
    requires k <= |es|
    ensures HashedEvents(es[..k]) <= HashedEvents(es)
  {
    hide EventBytes;
  }

  lemma EventsCollide(hash: Hasher, es: seq<AuditEvent>, fs: seq<AuditEvent>, i: nat, j: nat)
    requires i < |es| && j < |fs| && EventBytes(es[i]) != EventBytes(fs[j])
    requires hash(EventBytes(es[i])) == hash(EventBytes(fs[j]))
    ensures Collision(hash, HashedEvents(es), HashedEvents(fs))
  {
    hide EventBytes;
    assert es[i] in es && fs[j] in fs;
    assert EventBytes(es[i]) in HashedEvents(es) && EventBytes(fs[j]) in HashedEvents(fs);
  }

  /** Altering any event of a log while keeping its head makes it fail verification,
      or the hash collides on bytes of the true and the altered log. */
  lemma {:induction false} AlteredEventIsDetected(hash: Hasher, h: seq<Entry>, i: nat, e: AuditEvent)
    requires i < |h| <= U64_MAX && e != EventsOf(hash, h)[i]
    ensures var es := EventsOf(hash, h); var fs := es[i := e];
      || !(Chained(hash, fs) && ChainHead(hash, fs) == ChainHead(hash, es))
      || Collision(hash, HashedEvents(es), HashedEvents(fs))
  {
    hide EventBytes;
    var es := EventsOf(hash, h);
    AppendedLogsVerify(hash, h);
    if Chained(hash, es[i := e]) && ChainHead(hash, es[i := e]) == ChainHead(hash, es) {
      SameHeadSameEvents(hash, es, es[i := e]);
      assert es[i := e][i] != es[i];
    }
  }

  /** All byte strings hashed for a history: payloads and events. */
  ghost function Hashed(hash: Hasher, h: seq<Entry>): set<Bytes>
    requires |h| <= U64_MAX
  {
    (set e | e in h :: PayloadBytes(e.payload)) + HashedEvents(EventsOf(hash, h))
  }

  lemma {:induction false} EventAt(hash: Hasher, h: seq<Entry>, k: nat)
    requires k < |h| <= U64_MAX
    ensures var e := EventsOf(hash, h)[k];
      && e.sequence == k && e.kind == h[k].kind && e.timestampUnix == h[k].timestampUnix
      && e.orderDigest == hash(PayloadBytes(h[k].payload))
    decreases |h|
  {
    hide PayloadBytes, EventBytes;
    if k < |h| - 1 { EventAt(hash, h[..|h| - 1], k); }
  }

  /** Two histories with the same events have the same entries, payloads included. */
  lemma {:induction false} SameEventsSameEntries(hash: Hasher, g: seq<Entry>, h: seq<Entry>)
    requires |g| <= U64_MAX && |h| <= U64_MAX && EventsOf(hash, g) == EventsOf(hash, h)
    ensures g == h || Collision(hash, Hashed(hash, g), Hashed(hash, h))
  {
    hide PayloadBytes, EventBytes, EventsOf;
    if k :| 0 <= k < |g| && g[k] != h[k] {
      EventAt(hash, g, k);
      EventAt(hash, h, k);
      var x, y := PayloadBytes(g[k].payload), PayloadBytes(h[k].payload);
      assert g[k] in g && h[k] in h && x in Hashed(hash, g) && y in Hashed(hash, h);
      if x == y { PayloadBytesInjective(g[k].payload, h[k].payload); }
    }
  }

  /** Two histories of different lengths but one head, neither empty: the last events
      carry different sequence numbers, so their bytes collide. */
  lemma {:induction false} LengthsCollide(hash: Hasher, g: seq<Entry>, h: seq<Entry>)
    requires 0 < |g| <= U64_MAX && 0 < |h| <= U64_MAX && |g| != |h|
    requires ChainHead(hash, EventsOf(hash, g)) == ChainHead(hash, EventsOf(hash, h))
    ensures Collision(hash, HashedEvents(EventsOf(hash, g)), HashedEvents(EventsOf(hash, h)))
  {
    hide PayloadBytes, EventBytes, EventsOf, HashedEvents, Collision;
    var es, fs := EventsOf(hash, g), EventsOf(hash, h);
    var m, n := |g| - 1, |h| - 1;
    EventAt(hash, g, m);
    EventAt(hash, h, n);
    if EventBytes(es[m]) == EventBytes(fs[n]) { EventBytesInjective(es[m], fs[n]); }
    EventsCollide(hash, es, fs, m, n);
  }

  /** One history is empty, and the last event of the other hashes to zero. */
  ghost predicate EmptyAgainstZero(hash: Hasher, g: seq<Entry>, h: seq<Entry>)
    requires |h| <= U64_MAX
  {
    g == [] && h != [] && hash(EventBytes(EventsOf(hash, h)[|h| - 1])) == ZERO
  }

  /** Two histories of appends with the same head are equal entry by entry, payloads
      included, or the hash collides on bytes the two logs hashed, or exactly one of
      them is empty and the last event of the other hashes to zero. */
  lemma {:induction false} TamperEvidence(hash: Hasher, g: seq<Entry>, h: seq<Entry>)
    requires |g| <= U64_MAX && |h| <= U64_MAX
    requires ChainHead(hash, EventsOf(hash, g)) == ChainHead(hash, EventsOf(hash, h))
    ensures || g == h
            || Collision(hash, Hashed(hash, g), Hashed(hash, h))
            || EmptyAgainstZero(hash, g, h)
            || EmptyAgainstZero(hash, h, g)
  {
    hide PayloadBytes, EventBytes, EventsOf, Chained, Collision;
    var es, fs := EventsOf(hash, g), EventsOf(hash, h);
    if g != [] && h != [] {
      AppendedLogsVerify(hash, g);
      AppendedLogsVerify(hash, h);
      SameHeadSameEvents(hash, es, fs);
      if |g| != |h| { LengthsCollide(hash, g, h); }
      if es == fs {
        SameEventsSameEntries(hash, g, h);
      } else {
        CollisionGrows(hash, HashedEvents(es), HashedEvents(fs), Hashed(hash, g), Hashed(hash, h));
      }
    }
  }
}
