/** What a match guarantees: how much trades, with whom and in which order. */
module MatchingTheorems {
  import opened Orders
  import opened NaiveBook
  import opened QueueLemmas
  import opened BookInvariant

  // ---------------------------------------------------------------------
  // How much trades
  // ---------------------------------------------------------------------

  /** Behind an order out of reach nothing is in reach. */
  lemma {:induction false} CrossingZero(s: Side, q: seq<Order>, t: Order)
    requires Live(q) && Sorted(s, q) && t.side == s.Opposite()
    requires q != [] ==> !Reaches(t, q[0].price)
    ensures Crossing(q, t) == 0
  {
    if q != [] { CrossingZero(s, q[1..], t); }
  }

  lemma {:induction false} CrossingCongruent(q: seq<Order>, t: Order, u: Order)
    requires Live(q) && t.side == u.side && t.orderType == u.orderType && t.price == u.price
    ensures Crossing(q, t) == Crossing(q, u)
  {
    if q != [] { CrossingCongruent(q[1..], t, u); }
  }

  /** The nested loops trade exactly the lesser of what the taker wants and what is
      in reach, so a check on totals up front predicts the outcome. */
  lemma {:induction false} SweepTradesTheMinimum(s: Side, q: seq<Order>, t: Order)
    requires Live(q) && Sorted(s, q) && t.side == s.Opposite() && t.filledQuantity <= t.quantity
    ensures Traded(Sweep(q, t).fills) == Min(t.Remaining(), Crossing(q, t))
  {
    if q == [] || t.IsFilled() {
    } else if !Reaches(t, q[0].price) {
      CrossingZero(s, q, t);
    } else {
      var n := Min(t.Remaining(), q[0].Remaining());
      if n == q[0].Remaining() {
        SweepTradesTheMinimum(s, q[1..], t.Execute(n));
        CrossingCongruent(q[1..], t, t.Execute(n));
        assert Sweep(q, t).fills[1..] == Sweep(q[1..], t.Execute(n)).fills;
      } else {
        assert Sweep(q, t).fills[1..] == [];
      }
    }
  }

  /** The opposite queue of an order in a book. */
  function Makers(b: Book, o: Order): seq<Order> {
    b.Queue(o.side.Opposite())
  }

  /** A fill-or-kill order trades its whole remainder or leaves the book as it was,
      and it trades exactly when enough rests within its limit. */
  lemma {:induction false} FokAllOrNothing(b: Book, o: Order, now: U64)
    requires Inv(b) && Admissible(b, o) && o.timeInForce.FOK?
    ensures var r := Insert(b, o, now);
      && (Traded(r.fills) == o.Remaining() || r == Inserted(b, []))
      && (Traded(r.fills) == o.Remaining() <==> Crossing(Makers(b, o), o) >= o.Remaining())
  {
    SweepTradesTheMinimum(o.side.Opposite(), Makers(b, o), o);
    if Killed(Makers(b, o), o) {
      assert b.With(o.side.Opposite(), Makers(b, o)) == b;
    }
  }

  /** Any other order trades the lesser of its remainder and the crossing liquidity. */
  lemma {:induction false} InsertTradesTheMinimum(b: Book, o: Order, now: U64)
    requires Inv(b) && Admissible(b, o) && !o.timeInForce.FOK?
    ensures Traded(Insert(b, o, now).fills) ==
            if ExpiredOnEntry(o, now) || o.IsFilled() then 0 else Min(o.Remaining(), Crossing(Makers(b, o), o))
  {
    if !o.IsFilled() {
      SweepTradesTheMinimum(o.side.Opposite(), Makers(b, o), o);
    } else {
      SweepKeepsTaker(Makers(b, o), o);
    }
  }

  /** The condition on a submission, by totals a caller can read off before it. */
  lemma {:induction false} AdmissibleByTotals(b: Book, o: Order)
    requires Inv(b)
    ensures Admissible(b, o) <==>
            && o.id !in Ids(b.bids) + Ids(b.asks)
            && (o.timeInForce.FOK? ==> o.filledQuantity <= o.quantity)
            && (o.Rests() && !o.IsFilled() ==>
                  Liquidity(b.Queue(o.side)) + o.Remaining() - Min(o.Remaining(), Crossing(Makers(b, o), o)) <= U64_MAX)
  {
    hide Sweep, Crossing, Ids, Sorted, Distinct, Resting, Liquidity;
    SweepKeepsTaker(Makers(b, o), o);
    if !o.IsFilled() { SweepTradesTheMinimum(o.side.Opposite(), Makers(b, o), o); }
  }

  // ---------------------------------------------------------------------
  // With whom, and in which order
  // ---------------------------------------------------------------------

  predicate IsPrefixTrade(q: seq<Order>, o: Order, fs: seq<Fill>, left: seq<Order>)
    requires Live(q)
  {
    && FillsInOrder(fs, q, o)
    && (|| left == q[|fs|..]
        || (fs != [] && fs[|fs| - 1].quantity < q[|fs| - 1].Remaining()
            && left == [q[|fs| - 1].Execute(fs[|fs| - 1].quantity)] + q[|fs|..]))
    && Live(left) && Liquidity(q) == Liquidity(left) + Traded(fs)
  }

  lemma {:induction false} SweepTradesAPrefix(q: seq<Order>, o: Order)
    requires Live(q)
    ensures IsPrefixTrade(q, o, Sweep(q, o).fills, Sweep(q, o).rest)
  {
    SweepShape(q, o);
    SweepRest(q, o);
    SweepExhausts(q, o);
  }

  lemma NoTrade(q: seq<Order>, o: Order)
    requires Live(q)
    ensures IsPrefixTrade(q, o, [], q)
  {
    assert q[0..] == q;
  }

  /** The fills trade a prefix of the opposite queue, one maker each, in queue
      order, exhausting all but possibly the last, and nothing else happens to it. */
  lemma FillsAreAQueuePrefix(b: Book, o: Order, now: U64)
    requires Inv(b) && Admissible(b, o)
    ensures IsPrefixTrade(Makers(b, o), o, Insert(b, o, now).fills, Makers(Insert(b, o, now).book, o))
  {
    hide Sweep, Crossing, Enqueue, IsPrefixTrade, Sorted, Distinct, Resting;
    var q := Makers(b, o);
    SweepTradesAPrefix(q, o);
    NoTrade(q, o);
  }

  /** Order `other` stands in the queue at the place of order `first` or behind it. */
  ghost predicate Behind(q: seq<Order>, first: OrderId, other: OrderId) {
    exists i, k :: 0 <= i <= k < |q| && q[i].id == first && q[k].id == other
  }

  /** Price-time priority: prices never improve along the fills, no maker trades
      twice, and what is left is at no better price than any maker that traded and
      stood behind it in the queue, which is by age within a price. The one order
      left that traded itself is the last maker. */
  lemma PriceTimePriority(b: Book, o: Order, now: U64)
    requires Inv(b) && Admissible(b, o)
    ensures var s, fs, left := o.side.Opposite(), Insert(b, o, now).fills, Makers(Insert(b, o, now).book, o);
      && (forall i, j :: 0 <= i < j < |fs| ==> !Better(s, fs[j].price, fs[i].price) && fs[i].makerId != fs[j].makerId)
      && (forall i, j :: 0 <= i < |fs| && 0 <= j < |left| ==>
            !Better(s, left[j].price, fs[i].price) && Behind(Makers(b, o), fs[i].makerId, left[j].id))
      && (forall i, j :: 0 <= i < |fs| && 0 <= j < |left| && left[j].id == fs[i].makerId ==> i == |fs| - 1 && j == 0)
  {
    var s, q := o.side.Opposite(), Makers(b, o);
    var fs := Insert(b, o, now).fills;
    var left := Makers(Insert(b, o, now).book, o);
    forall i, j | 0 <= i < j < |fs| ensures !Better(s, fs[j].price, fs[i].price) && fs[i].makerId != fs[j].makerId {
      MakersInOrder(s, q, o, i, j);
    }
    forall i, j | 0 <= i < |fs| && 0 <= j < |left|
      ensures !Better(s, left[j].price, fs[i].price) && Behind(q, fs[i].makerId, left[j].id)
      ensures left[j].id == fs[i].makerId ==> i == |fs| - 1 && j == 0
    {
      LeftBehind(s, q, o, i, j);
    }
  }

  lemma {:induction false} MakersInOrder(s: Side, q: seq<Order>, t: Order, i: nat, j: nat)
    requires Live(q) && Sorted(s, q) && Distinct(q) && i < j < |Sweep(q, t).fills|
    ensures var fs := Sweep(q, t).fills; !Better(s, fs[j].price, fs[i].price) && fs[i].makerId != fs[j].makerId
  {
    SweepShape(q, t);
    SortedPairwise(s, q);
    DistinctPairwise(q);
    assert Trades(Sweep(q, t).fills[i], q[i], t) && Trades(Sweep(q, t).fills[j], q[j], t);
  }

  lemma {:induction false} LeftBehind(s: Side, q: seq<Order>, t: Order, i: nat, j: nat)
    requires Live(q) && Sorted(s, q) && Distinct(q) && i < |Sweep(q, t).fills| && j < |Sweep(q, t).rest|
    ensures var f, left := Sweep(q, t).fills[i], Sweep(q, t).rest[j];
      && !Better(s, left.price, f.price) && Behind(q, f.makerId, left.id)
      && (left.id == f.makerId ==> i == |Sweep(q, t).fills| - 1 && j == 0)
  {
    hide Sweep, Sorted, Distinct;
    var r := Sweep(q, t);
    SweepShape(q, t);
    SweepRest(q, t);
    SortedPairwise(s, q);
    DistinctPairwise(q);
    assert Trades(r.fills[i], q[i], t);
    var at := if Partial(r, q) then |r.fills| - 1 + j else |r.fills| + j;
    assert r.rest[j].price == q[at].price && r.rest[j].id == q[at].id;
  }

  // ---------------------------------------------------------------------
  // Splitting a taker
  // ---------------------------------------------------------------------

  /** Quantity maker `id` traded. */
  function Got(fs: seq<Fill>, id: OrderId): nat {
    if fs == [] then 0 else (if fs[0].makerId == id then fs[0].quantity else 0) + Got(fs[1..], id)
  }

  lemma {:induction false} GotCons(f: Fill, fs: seq<Fill>, id: OrderId)
    ensures Got([f] + fs, id) == (if f.makerId == id then f.quantity else 0) + Got(fs, id)
  {
    assert ([f] + fs)[1..] == fs;
  }

  predicate SameLimit(t: Order, u: Order) {
    t.side == u.side && t.orderType == u.orderType && t.price == u.price
  }

  lemma {:induction false} SweepSameDemand(q: seq<Order>, t: Order, u: Order, id: OrderId)
    requires Live(q) && SameLimit(t, u) && t.filledQuantity <= t.quantity && u.filledQuantity <= u.quantity
    requires t.Remaining() == u.Remaining()
    ensures Sweep(q, t).rest == Sweep(q, u).rest && Got(Sweep(q, t).fills, id) == Got(Sweep(q, u).fills, id)
  {
    if q == [] || t.IsFilled() || !Reaches(t, q[0].price) {
    } else {
      var n := Min(t.Remaining(), q[0].Remaining());
      if n == q[0].Remaining() {
        SweepSameDemand(q[1..], t.Execute(n), u.Execute(n), id);
        GotCons(Fill(q[0].id, t.id, q[0].price, n, t.timestampNs), Sweep(q[1..], t.Execute(n)).fills, id);
        GotCons(Fill(q[0].id, u.id, q[0].price, n, u.timestampNs), Sweep(q[1..], u.Execute(n)).fills, id);
      }
    }
  }

  /** One maker's worth of a sweep. */
  lemma {:induction false} SweepHead(m: Order, tail: seq<Order>, t: Order, id: OrderId)
    requires m.filledQuantity < m.quantity && Live(tail) && Reaches(t, m.price) && !t.IsFilled()
    ensures var r, n := Sweep([m] + tail, t), Min(t.Remaining(), m.Remaining());
      if n == m.Remaining() then
        && r.rest == Sweep(tail, t.Execute(n)).rest
        && Got(r.fills, id) == (if m.id == id then n else 0) + Got(Sweep(tail, t.Execute(n)).fills, id)
      else
        && r.rest == [m.Execute(n)] + tail
        && Got(r.fills, id) == if m.id == id then n else 0
  {
    var n := Min(t.Remaining(), m.Remaining());
    var f := Fill(m.id, t.id, m.price, n, t.timestampNs);
    assert ([m] + tail)[1..] == tail;
    if n == m.Remaining() {
      GotCons(f, Sweep(tail, t.Execute(n)).fills, id);
    } else {
      GotCons(f, [], id);
    }
  }

  lemma SameReach(t: Order, t1: Order, t2: Order, p: int)
    requires SameLimit(t1, t) && SameLimit(t2, t)
    ensures Reaches(t1, p) == Reaches(t, p) == Reaches(t2, p)
  {}

  /** The first taker stops inside the first maker, and so does the second. */
  lemma {:induction false} SplitWithin(m: Order, tail: seq<Order>, t1: Order, t2: Order, t: Order, id: OrderId)
    requires m.filledQuantity < m.quantity && Live(tail) && SameLimit(t1, t) && SameLimit(t2, t) && Reaches(t, m.price)
    requires t1.filledQuantity < t1.quantity && t2.filledQuantity < t2.quantity && t.filledQuantity <= t.quantity
    requires t1.Remaining() + t2.Remaining() == t.Remaining() < m.Remaining()
    ensures var r1 := Sweep([m] + tail, t1);
      && Live(r1.rest)
      && Sweep(r1.rest, t2).rest == Sweep([m] + tail, t).rest
      && Got(r1.fills, id) + Got(Sweep(r1.rest, t2).fills, id) == Got(Sweep([m] + tail, t).fills, id)
  {
    hide Sweep, Got, Reaches;
    SameReach(t, t1, t2, m.price);
    var n1, n2 := t1.Remaining(), t2.Remaining();
    var m1 := m.Execute(n1);
    SweepHead(m, tail, t1, id);
    SweepHead(m, tail, t, id);
    SweepHead(m1, tail, t2, id);
    assert m1.Execute(n2) == m.Execute(n1 + n2);
  }

  /** The first taker stops inside the first maker, and the second finishes it off. */
  lemma {:induction false} SplitThrough(m: Order, tail: seq<Order>, t1: Order, t2: Order, t: Order, id: OrderId)
    requires m.filledQuantity < m.quantity && Live(tail) && SameLimit(t1, t) && SameLimit(t2, t) && Reaches(t, m.price)
    requires t1.filledQuantity < t1.quantity && t2.filledQuantity < t2.quantity && t.filledQuantity <= t.quantity
    requires t1.Remaining() + t2.Remaining() == t.Remaining() >= m.Remaining() > t1.Remaining()
    ensures var r1 := Sweep([m] + tail, t1);
      && Live(r1.rest)
      && Sweep(r1.rest, t2).rest == Sweep([m] + tail, t).rest
      && Got(r1.fills, id) + Got(Sweep(r1.rest, t2).fills, id) == Got(Sweep([m] + tail, t).fills, id)
  {
    hide Sweep, Got, Reaches;
    SameReach(t, t1, t2, m.price);
    var n1 := t1.Remaining();
    var m1 := m.Execute(n1);
    SweepHead(m, tail, t1, id);
    SweepHead(m, tail, t, id);
    SweepHead(m1, tail, t2, id);
    SweepSameDemand(tail, t2.Execute(m1.Remaining()), t.Execute(m.Remaining()), id);
  }

  /** Sweeping for `t1` and then for `t2` is sweeping once for both. */
  lemma {:induction false} SweepSplit(q: seq<Order>, t1: Order, t2: Order, t: Order, id: OrderId)
    requires Live(q) && SameLimit(t1, t) && SameLimit(t2, t)
    requires t1.filledQuantity <= t1.quantity && t2.filledQuantity <= t2.quantity && t.filledQuantity <= t.quantity
    requires t1.Remaining() + t2.Remaining() == t.Remaining()
    ensures var r1 := Sweep(q, t1); Live(r1.rest) && var r2 := Sweep(r1.rest, t2);
      && r2.rest == Sweep(q, t).rest
      && Got(r1.fills, id) + Got(r2.fills, id) == Got(Sweep(q, t).fills, id)
  {
    hide Sweep, Got;
    SweepExhausts(q, t1);
    GotNothing(id);
    if q == [] || t.IsFilled() || !Reaches(t, q[0].price) {
      SweepStops(q, t);
      SweepStops(q, t1);
      SweepStops(q, t2);
    } else if t1.Remaining() == 0 {
      SweepStops(q, t1);
      SweepSameDemand(q, t2, t, id);
    } else {
      var m, tail := q[0], q[1..];
      assert [m] + tail == q;
      if t1.Remaining() >= m.Remaining() {
        SweepHead(m, tail, t1, id);
        SweepHead(m, tail, t, id);
        SweepSplit(tail, t1.Execute(m.Remaining()), t2, t.Execute(m.Remaining()), id);
      } else if t2.Remaining() == 0 {
        SweepSameDemand(q, t1, t, id);
        SweepStops(Sweep(q, t1).rest, t2);
      } else if t.Remaining() < m.Remaining() {
        SplitWithin(m, tail, t1, t2, t, id);
      } else {
        SplitThrough(m, tail, t1, t2, t, id);
      }
    }
  }

  lemma {:induction false} GotNothing(id: OrderId)
    ensures Got([], id) == 0
  {}

  /** An order that trades what it can and never rests. */
  predicate Immediate(o: Order) {
    !o.Rests() && !o.timeInForce.FOK? && o.filledQuantity <= o.quantity
  }

  /** Two immediate takers in a row leave the book of one taker for the sum, and
      every maker ends up with the same quantity. */
  lemma SplitTaker(b: Book, t1: Order, t2: Order, t: Order, now: U64)
    requires Inv(b) && Admissible(b, t1) && Admissible(b, t2) && Admissible(b, t)
    requires Immediate(t1) && Immediate(t2) && Immediate(t) && SameLimit(t1, t) && SameLimit(t2, t)
    requires !ExpiredOnEntry(t1, now) && !ExpiredOnEntry(t2, now) && !ExpiredOnEntry(t, now)
    requires t1.Remaining() + t2.Remaining() == t.Remaining()
    ensures var r1 := Insert(b, t1, now); Inv(r1.book) && Admissible(r1.book, t2)
    ensures var r1, r := Insert(b, t1, now), Insert(b, t, now); var r2 := Insert(r1.book, t2, now);
      && r2.book == r.book
      && (forall id :: Got(r1.fills, id) + Got(r2.fills, id) == Got(r.fills, id))
  {
    InsertKeepsInv(b, t1, now);
    MatchKeepsInv(b, t1);
    forall id ensures Got(Insert(b, t1, now).fills, id) + Got(Insert(Insert(b, t1, now).book, t2, now).fills, id)
                      == Got(Insert(b, t, now).fills, id) {
      SweepSplit(Makers(b, t), t1, t2, t, id);
    }
    SweepSplit(Makers(b, t), t1, t2, t, 0);
  }

  // ---------------------------------------------------------------------
  // The order's own side
  // ---------------------------------------------------------------------

  /** What an insertion does to the order's own side: nothing, unless an unfilled
      remainder may rest; then the remainder, short by what traded, goes behind every
      order of equal or better price and ahead of every worse one. */
  lemma RemainderRests(b: Book, o: Order, now: U64)
    requires Inv(b) && Admissible(b, o)
    ensures var r, own := Insert(b, o, now), b.Queue(o.side); var left := r.book.Queue(o.side);
      if ExpiredOnEntry(o, now) || !o.Rests() || o.filledQuantity + Traded(r.fills) >= o.quantity then left == own
      else
        var t := o.(filledQuantity := o.filledQuantity + Traded(r.fills));
        var k := Place(own, t);
        left == own[..k] + [t] + own[k..]
  {
    SweepKeepsTaker(Makers(b, o), o);
  }
}
