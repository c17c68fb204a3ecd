/** The matching engine and the position tracker together: every fill of a run is
    booked for its taker and its maker, and the tracker's fields balance. */
module Clearing {
  import opened Orders
  import opened NaiveBook
  import opened BookInvariant
  import opened OrderBooks
  import opened Replays
  import opened Accounting
  import opened Positions
  import opened TrackerRuns
  import opened Settlement

  // ---------------------------------------------------------------------
  // Deals as bookings
  // ---------------------------------------------------------------------

  /** Each deal is booked twice: for the taker on its side and for the maker on the
      opposite side. The tracker's keys stand for the accounts. */
  function Bookings(ds: seq<Deal>): seq<Booking> {
    if ds == [] then []
    else
      [Booking(ds[0].taker, ds[0].fill, ds[0].takerSide), Booking(ds[0].maker, ds[0].fill, ds[0].takerSide.Opposite())]
      + Bookings(ds[1..])
  }

  lemma {:induction false} BookingsAppend(a: seq<Deal>, b: seq<Deal>)
    ensures Bookings(a + b) == Bookings(a) + Bookings(b)
  {
    if a == [] {
      assert a + b == b;
    } else {
      assert (a + b)[1..] == a[1..] + b;
      BookingsAppend(a[1..], b);
    }
  }

  /** One fill applied by the tracker is one booking on the accounts behind it. */
  lemma TrackerBooks(ps: PositionMap, b: Booking)
    requires Bookable(ps, b)
    ensures AccountsOf(Booked(ps, b)) == BookFor(AccountsOf(ps), b.symbolHash, b.ToTrade().signed, b.fill.price)
  {
    hide InRange, BookTrade, FilledAccount;
  }

  /** The tracker's positions after the bookings of a list of deals are the settled accounts. */
  lemma {:induction false} TrackerSettles(ps: PositionMap, ds: seq<Deal>)
    requires AllBookable(ps, Bookings(ds))
    ensures AccountsOf(BookedAll(ps, Bookings(ds))) == SettleAll(AccountsOf(ps), ds)
    decreases |ds|
  {
    hide Bookable, Booked, AccountsOf, BookFor;
    if ds != [] {
      var bs := Bookings(ds);
      assert bs[1..][1..] == Bookings(ds[1..]);
      TrackerBooks(ps, bs[0]);
      TrackerBooks(Booked(ps, bs[0]), bs[1]);
      TrackerSettles(Booked(Booked(ps, bs[0]), bs[1]), ds[1..]);
    }
  }

  // ---------------------------------------------------------------------
  // Totals over the tracker's fields
  // ---------------------------------------------------------------------

  datatype Column = NetQuantity | Pnl

  function Entry(p: Position, c: Column): int {
    match c
    case NetQuantity => p.netQuantity
    case Pnl => p.realizedPnl + p.unrealizedPnl
  }

  /** The sum of a column over the positions with keys below `n`. */
  function SumBelow(ps: PositionMap, c: Column, n: nat): int {
    if n == 0 then 0 else SumBelow(ps, c, n - 1) + (if n - 1 <= U64_MAX && n - 1 in ps then Entry(ps[n - 1], c) else 0)
  }

  function Sum(ps: PositionMap, c: Column): int {
    SumBelow(ps, c, U64_MAX + 1)
  }

  /** Every position can be revalued at `mark` without leaving i64. */
  predicate Markable(ps: PositionMap, mark: int) {
    forall k :: k in ps ==>
      && FitsI64(ps[k].netQuantity * (mark - ps[k].avgEntryPrice))
      && (ps[k].netQuantity != 0 ==> FitsI64(mark - ps[k].avgEntryPrice))
  }

  /** The positions after revaluing those with keys in `done`. */
  predicate MarkedAt(ps: PositionMap, qs: PositionMap, done: set<U64>, mark: int) {
    && qs.Keys == ps.Keys
    && forall k :: k in ps ==>
         if k in done then
           && qs[k] == ps[k].(unrealizedPnl := qs[k].unrealizedPnl)
           && qs[k].unrealizedPnl == ps[k].netQuantity * (mark - ps[k].avgEntryPrice)
         else qs[k] == ps[k]
  }

  lemma {:induction false} MarkedTotals(ps: PositionMap, qs: PositionMap, mark: int, n: nat)
    requires MarkedAt(ps, qs, ps.Keys, mark)
    ensures SumBelow(qs, NetQuantity, n) == TotalBelow(AccountsOf(ps), Lots, n)
    ensures SumBelow(qs, Pnl, n) == TotalBelow(AccountsOf(ps), Worth(mark), n)
  {
    if n > 0 { MarkedTotals(ps, qs, mark, n - 1); }
  }

  /** Revalue every position at one price. */
  method MarkAll(tracker: PositionTracker, mark: I64)
    requires Markable(tracker.positions, mark)
    modifies tracker
    ensures MarkedAt(old(tracker.positions), tracker.positions, old(tracker.positions).Keys, mark)
  {
    ghost var ps := tracker.positions;
    var left := tracker.positions.Keys;
    while left != {}
      invariant left <= ps.Keys
      invariant MarkedAt(ps, tracker.positions, ps.Keys - left, mark)
      decreases |left|
    {
      var k :| k in left;
      tracker.MarkToMarket(k, mark);
      left := left - {k};
    }
  }

  // ---------------------------------------------------------------------
  // Zero sum
  // ---------------------------------------------------------------------

  /** The books balance: no lots overall, and together realized and unrealized P&L is
      only what truncation lost. */
  predicate Balanced(ps: PositionMap, ds: seq<Deal>) {
    Sum(ps, NetQuantity) == 0 && Sum(ps, Pnl) == Losses(map[], ds)
  }

  lemma {:induction false} SettledIsBalanced(ds: seq<Deal>, qs: PositionMap, mark: int)
    requires AllBookable(map[], Bookings(ds))
    requires MarkedAt(BookedAll(map[], Bookings(ds)), qs, BookedAll(map[], Bookings(ds)).Keys, mark)
    ensures Balanced(qs, ds)
  {
    hide AllBookable, BookedAll, Bookings, MarkedAt, Losses, SettleAll, SumBelow, TotalBelow;
    var none: PositionMap := map[];
    TrackerSettles(none, ds);
    assert AccountsOf(none) == map[];
    SettleFrom(map[], ds, mark);
    NobodyOwnsNothing(Lots, U64_MAX + 1);
    NobodyOwnsNothing(Worth(mark), U64_MAX + 1);
    MarkedTotals(BookedAll(none, Bookings(ds)), qs, mark, U64_MAX + 1);
  }

  /** Book a list of deals from no positions at all and revalue at one price. */
  method Clear(ds: seq<Deal>, mark: I64) returns (tracker: PositionTracker)
    requires AllBookable(map[], Bookings(ds)) && Markable(BookedAll(map[], Bookings(ds)), mark)
    ensures fresh(tracker) && Balanced(tracker.positions, ds)
  {
    hide AllBookable, BookedAll, Balanced, Markable, MarkedAt;
    tracker := Track(Bookings(ds));
    MarkAll(tracker, mark);
    SettledIsBalanced(ds, tracker.positions, mark);
  }

  /** The deals of one call, read off its reply. */
  function DealsOfReply(op: Op, reply: Reply, owner: OrderId -> U64): seq<Deal> {
    if op.InsertOp? && reply.Fills? then DealsOf(reply.fills, op.order.side, owner) else []
  }

  lemma {:induction false} RunDealsStep(b: Book, ops: seq<Op>, owner: OrderId -> U64)
    requires Inv(b) && ops != [] && AllowedRun(b, ops)
    ensures Allowed(b, ops[0]) && Inv(Apply(b, ops[0])) && AllowedRun(Apply(b, ops[0]), ops[1..])
    ensures RunDeals(b, ops, owner) ==
            DealsOfReply(ops[0], Answer(b, ops[0]), owner) + RunDeals(Apply(b, ops[0]), ops[1..], owner)
  {
    hide Inv, Insert, Apply, DealsOf;
    RunStep(b, ops);
  }

  /** What is left to book after the deals of one call. */
  lemma {:induction false} BookingsStep(ps: PositionMap, now: seq<Deal>, later: seq<Deal>)
    requires AllBookable(ps, Bookings(now + later))
    ensures AllBookable(ps, Bookings(now)) && AllBookable(BookedAll(ps, Bookings(now)), Bookings(later))
    ensures BookedAll(ps, Bookings(now + later)) == BookedAll(BookedAll(ps, Bookings(now)), Bookings(later))
  {
    hide AllBookable, BookedAll, Bookings;
    BookingsAppend(now, later);
    BookedAppend(ps, Bookings(now), Bookings(later));
  }

  /** Run the engine from an empty book, book every fill as it happens for the owners
      of the two orders, and revalue at the end: whatever the calls and whoever owns
      the orders, the tracker's fields balance. */
  method TradeAndClear(ops: seq<Op>, owner: OrderId -> U64, mark: I64)
    returns (book: OrderBook, tracker: PositionTracker)
    requires AllowedRun(EMPTY, ops)
    requires var bs := Bookings(RunDeals(EMPTY, ops, owner));
      AllBookable(map[], bs) && Markable(BookedAll(map[], bs), mark)
    ensures fresh(book) && book.Valid() && book.Contents() == Run(EMPTY, ops)
    ensures fresh(tracker) && Balanced(tracker.positions, RunDeals(EMPTY, ops, owner))
  {
    hide Inv, AllowedRun, Run, RunDeals, Apply, Answer, AllBookable, BookedAll, Bookings, Balanced, Markable, MarkedAt,
      OrderBook.Valid, OrderBook.Contents, Allowed, Bookable, RunTrades, TradesFor, DealsOf;
    EmptyHasInv();
    ghost var last := BookedAll(map[], Bookings(RunDeals(EMPTY, ops, owner)));
    book := new OrderBook();
    tracker := new PositionTracker();
    assert ops[0..] == ops;
    var i := 0;
    while i < |ops|
      invariant 0 <= i <= |ops|
      invariant fresh(book) && fresh(tracker) && book.Valid() && Inv(book.Contents())
      invariant AllowedRun(book.Contents(), ops[i..]) && Run(book.Contents(), ops[i..]) == Run(EMPTY, ops)
      invariant AllBookable(tracker.positions, Bookings(RunDeals(book.Contents(), ops[i..], owner)))
      invariant BookedAll(tracker.positions, Bookings(RunDeals(book.Contents(), ops[i..], owner))) == last
    {
      assert ops[i..][0] == ops[i] && ops[i..][1..] == ops[i + 1..];
      ghost var before := book.Contents();
      RunStep(before, ops[i..]);
      RunDealsStep(before, ops[i..], owner);
      var reply := Submit(book, ops[i]);
      var deals := DealsOfReply(ops[i], reply, owner);
      BookingsStep(tracker.positions, deals, RunDeals(book.Contents(), ops[i + 1..], owner));
      ApplyAll(tracker, Bookings(deals));
      i := i + 1;
    }
    NothingLeft(book.Contents(), ops[i..], owner, tracker.positions);
    MarkAll(tracker, mark);
    SettledIsBalanced(RunDeals(EMPTY, ops, owner), tracker.positions, mark);
  }

  lemma {:induction false} NothingLeft(b: Book, ops: seq<Op>, owner: OrderId -> U64, ps: PositionMap)
    requires Inv(b) && ops == [] && AllowedRun(b, ops)
    ensures Run(b, ops) == b && RunDeals(b, ops, owner) == [] && Bookings([]) == [] && BookedAll(ps, []) == ps
  {}
}
