/** Whole runs of the position tracker: fills for any mix of symbols, one after the
    other, and what the i64 fields hold at the end. */
module TrackerRuns {
  import opened Orders
  import opened Accounting
  import opened Positions

  /** One fill to apply, for the symbol and on the side of the party it is booked for. */
  datatype Booking = Booking(symbolHash: U64, fill: Fill, side: Side) {
    function ToTrade(): Trade {
      Trade(SignedQuantity(side, fill.quantity), fill.price)
    }
  }

  /** No plain operation overflows, and the quantity survives its cast. */
  predicate Bookable(ps: PositionMap, b: Booking) {
    InRange(At(ps, b.symbolHash), b.fill, b.side) && b.fill.quantity <= I64_MAX
  }

  function Booked(ps: PositionMap, b: Booking): PositionMap
    requires Bookable(ps, b)
  {
    ps[b.symbolHash := Filled(At(ps, b.symbolHash), b.fill, b.side)]
  }

  predicate AllBookable(ps: PositionMap, bs: seq<Booking>)
    decreases |bs|
  {
    bs == [] || (Bookable(ps, bs[0]) && AllBookable(Booked(ps, bs[0]), bs[1..]))
  }

  function BookedAll(ps: PositionMap, bs: seq<Booking>): PositionMap
    requires AllBookable(ps, bs)
    decreases |bs|
  {
    if bs == [] then ps else BookedAll(Booked(ps, bs[0]), bs[1..])
  }

  /** The trades of a run that concern symbol `k`. */
  function TradesFor(bs: seq<Booking>, k: U64): seq<Trade> {
    if bs == [] then []
    else (if bs[0].symbolHash == k then [bs[0].ToTrade()] else []) + TradesFor(bs[1..], k)
  }

  /** Each symbol's fields follow the account of its own trades, whatever is booked in
      between for others. */
  lemma {:induction false} FieldsFollowTheAccount(ps: PositionMap, bs: seq<Booking>, k: U64)
    requires AllBookable(ps, bs)
    ensures var p, q, ts := At(ps, k), At(BookedAll(ps, bs), k), TradesFor(bs, k);
      q.AtCost() == RunTrades(p.AtCost(), ts) && q.tradeCount == p.tradeCount + |ts|
    decreases |bs|
  {
    hide InRange, BookTrade, Filled;
    if bs != [] {
      FieldsFollowTheAccount(Booked(ps, bs[0]), bs[1..], k);
      var ts := TradesFor(bs[1..], k);
      assert [bs[0].ToTrade()] + ts == TradesFor(bs, k) || ts == TradesFor(bs, k);
      assert ([bs[0].ToTrade()] + ts)[1..] == ts;
    }
  }

  lemma {:induction false} BookedAppend(ps: PositionMap, a: seq<Booking>, b: seq<Booking>)
    ensures AllBookable(ps, a + b) <==> AllBookable(ps, a) && AllBookable(BookedAll(ps, a), b)
    ensures AllBookable(ps, a + b) ==> BookedAll(ps, a + b) == BookedAll(BookedAll(ps, a), b)
    decreases |a|
  {
    hide Bookable, Booked;
    if a == [] {
      assert a + b == b;
    } else {
      assert (a + b)[1..] == a[1..] + b;
      if Bookable(ps, a[0]) { BookedAppend(Booked(ps, a[0]), a[1..], b); }
    }
  }

  /** Apply a run of fills. */
  method ApplyAll(tracker: PositionTracker, bs: seq<Booking>)
    requires AllBookable(tracker.positions, bs)
    modifies tracker
    ensures tracker.positions == BookedAll(old(tracker.positions), bs)
    ensures forall k :: At(tracker.positions, k).AtCost() ==
              RunTrades(At(old(tracker.positions), k).AtCost(), TradesFor(bs, k))
  {
    hide Bookable, Filled, InRange, RunTrades;
    ghost var start := tracker.positions;
    assert bs[0..] == bs;
    var i := 0;
    while i < |bs|
      invariant 0 <= i <= |bs|
      invariant AllBookable(tracker.positions, bs[i..])
      invariant BookedAll(tracker.positions, bs[i..]) == BookedAll(start, bs)
    {
      assert bs[i..][1..] == bs[i + 1..];
      BookableIsInRange(tracker.positions, bs[i]);
      tracker.ApplyFill(bs[i].symbolHash, bs[i].fill, bs[i].side);
      i := i + 1;
    }
    forall k: U64
      ensures At(tracker.positions, k).AtCost() == RunTrades(At(start, k).AtCost(), TradesFor(bs, k))
    {
      FieldsFollowTheAccount(start, bs, k);
    }
  }

  lemma BookableIsInRange(ps: PositionMap, b: Booking)
    requires Bookable(ps, b)
    ensures InRange(At(ps, b.symbolHash), b.fill, b.side)
  {}

  function NetOf(ts: seq<Trade>): int {
    if ts == [] then 0 else ts[0].signed + NetOf(ts[1..])
  }

  lemma {:induction false} NetIsSum(a: Account, ts: seq<Trade>)
    ensures RunTrades(a, ts).net == a.net + NetOf(ts)
    decreases |ts|
  {
    if ts != [] { NetIsSum(BookTrade(a, ts[0].signed, ts[0].price), ts[1..]); }
  }

  /** What the fields of a position say about the trades that led to it: the lots are
      their sum, realized P&L is their cash plus the lots at cost plus what truncation
      lost, the average lies between prices that opened or added to the position, and
      every trade is counted. */
  ghost predicate Accounts(p: Position, ts: seq<Trade>) {
    && p.netQuantity == NetOf(ts)
    && p.realizedPnl == Cash(ts) + p.netQuantity * p.avgEntryPrice + Remainders(FLAT, ts)
    && Abs(Remainders(FLAT, ts)) <= Slack(FLAT, ts)
    && (p.netQuantity != 0 ==> Within(p.avgEntryPrice, OpenPricesAfter(FLAT, [], ts)))
    && p.tradeCount == |ts|
  }

  lemma {:induction false} FieldsAccount(bs: seq<Booking>, k: U64)
    requires AllBookable(map[], bs)
    ensures Accounts(At(BookedAll(map[], bs), k), TradesFor(bs, k))
  {
    hide InRange, BookTrade, Filled, RunTrades, Within, Remainders, Slack, Cash, OpenPricesAfter, TradesFor,
      AllBookable, BookedAll;
    var ts := TradesFor(bs, k);
    FieldsFollowTheAccount(map[], bs, k);
    NetIsSum(FLAT, ts);
    LedgerIdentity(ts);
    AverageStaysInHull(FLAT, [], ts);
  }

  /** Track a run of fills from no positions at all. */
  method Track(bs: seq<Booking>) returns (tracker: PositionTracker)
    requires AllBookable(map[], bs)
    ensures fresh(tracker) && tracker.positions == BookedAll(map[], bs)
    ensures forall k :: Accounts(At(tracker.positions, k), TradesFor(bs, k))
  {
    hide Accounts, AllBookable, BookedAll, RunTrades;
    tracker := new PositionTracker();
    ApplyAll(tracker, bs);
    forall k: U64 ensures Accounts(At(tracker.positions, k), TradesFor(bs, k)) {
      FieldsAccount(bs, k);
    }
  }
}
