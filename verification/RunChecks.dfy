/** Checks a caller can make before a run: on the submissions alone, they rule out
    every call the engine does not allow and every overflow of the tracker. */
module RunChecks {
  import opened Orders
  import opened NaiveBook
  import opened QueueLemmas
  import opened BookInvariant
  import opened MatchingTheorems
  import opened TimePriority
  import opened Conservation
  import opened Accounting
  import opened Positions
  import opened TrackerRuns
  import opened Settlement
  import opened Clearing

  /** All lots a run submits. */
  function SubmittedLots(ops: seq<Op>): nat {
    if ops == [] then 0 else (if ops[0].InsertOp? then OpenLots(ops[0].order) else 0) + SubmittedLots(ops[1..])
  }

  function TotalLiquidity(b: Book): nat
    requires Live(b.bids) && Live(b.asks)
  {
    Liquidity(b.bids) + Liquidity(b.asks)
  }

  function FillsOf(reply: Reply): seq<Fill> {
    if reply.Fills? then reply.fills else []
  }

  // ---------------------------------------------------------------------
  // Which runs are allowed
  // ---------------------------------------------------------------------

  /** No id is submitted twice, and no fill-or-kill order is overfilled. */
  predicate FreshOrders(ops: seq<Op>) {
    && (forall i, j :: 0 <= i < j < |ops| && ops[i].InsertOp? && ops[j].InsertOp? ==>
          ops[i].order.id != ops[j].order.id)
    && (forall i :: 0 <= i < |ops| && ops[i].InsertOp? && ops[i].order.timeInForce.FOK? ==>
          ops[i].order.filledQuantity <= ops[i].order.quantity)
  }

  predicate NoneResting(b: Book, ops: seq<Op>) {
    forall i :: 0 <= i < |ops| && ops[i].InsertOp? ==> ops[i].order.id !in Ids(b.bids) + Ids(b.asks)
  }

  /** A trade takes a lot from the taker and one from a maker, so what rests and twice
      what traded is covered by what rested and what came in. */
  lemma InsertUsesLots(b: Book, o: Order, now: U64)
    requires Inv(b) && Admissible(b, o)
    ensures var r := Insert(b, o, now);
      Inv(r.book) && TotalLiquidity(r.book) + 2 * Traded(r.fills) <= TotalLiquidity(b) + OpenLots(o)
  {
    hide Match, Enqueue, Sorted, Distinct, Resting, Liquidity, Ids;
    InsertKeepsInv(b, o, now);
    NothingTraded();
    MatchKeepsInv(b, o);
    MatchUsesLots(b.Queue(o.side.Opposite()), o);
    var t := Match(b.Queue(o.side.Opposite()), o).taker;
    if !t.IsFilled() && o.Rests() { EnqueueOk(o.side, b.Queue(o.side), t); }
  }

  lemma {:induction false} MatchUsesLots(q: seq<Order>, o: Order)
    requires Live(q) && (o.timeInForce.FOK? ==> o.filledQuantity <= o.quantity)
    ensures var m := Match(q, o);
      && Live(m.rest) && Liquidity(q) == Liquidity(m.rest) + Traded(m.fills)
      && OpenLots(m.taker) + Traded(m.fills) == OpenLots(o)
  {
    hide Sweep, Crossing, Liquidity;
    SweepExhausts(q, o);
    SweepKeepsTaker(q, o);
    NothingTraded();
  }

  lemma NothingTraded()
    ensures Traded([]) == 0
  {}

  lemma StepUsesLots(b: Book, op: Op)
    requires Inv(b) && Allowed(b, op)
    ensures Inv(Apply(b, op))
    ensures TotalLiquidity(Apply(b, op)) + 2 * Traded(FillsOf(Answer(b, op)))
            <= TotalLiquidity(b) + if op.InsertOp? then OpenLots(op.order) else 0
  {
    ApplyKeepsInv(b, op);
    hide Insert, Sorted, Distinct, Resting, Ids;
    match op
    case InsertOp(o, now) => InsertUsesLots(b, o, now);
    case CancelOp(id) =>
      RemoveOk(Bid, b.bids, id);
      RemoveOk(Ask, b.asks, id);
    case PurgeOp(now) =>
      SurvivingOk(Bid, b.bids, now);
      SurvivingOk(Ask, b.asks, now);
    case _ =>
  }

  lemma StepIds(b: Book, op: Op)
    requires Inv(b) && Allowed(b, op)
    ensures Ids(Apply(b, op).bids) + Ids(Apply(b, op).asks) <=
            Ids(b.bids) + Ids(b.asks) + if op.InsertOp? then {op.order.id} else {}
  {
    hide Insert, Sorted, Distinct, Resting;
    match op
    case InsertOp(o, now) => InsertKeepsInv(b, o, now);
    case CancelOp(id) => CancelKeepsInv(b, id);
    case PurgeOp(now) =>
      SurvivingOk(Bid, b.bids, now);
      SurvivingOk(Ask, b.asks, now);
    case _ =>
  }

  lemma RoomForAll(b: Book, o: Order)
    requires Inv(b) && o.id !in Ids(b.bids) + Ids(b.asks) && TotalLiquidity(b) + OpenLots(o) <= U64_MAX
    requires o.timeInForce.FOK? ==> o.filledQuantity <= o.quantity
    ensures Admissible(b, o)
  {
    hide Sweep, Crossing, Sorted, Distinct, Resting, Liquidity, Ids;
    SweepKeepsTaker(b.Queue(o.side.Opposite()), o);
  }

  lemma {:induction false} AllowedFrom(b: Book, ops: seq<Op>)
    requires Inv(b) && FreshOrders(ops) && NoneResting(b, ops)
    requires TotalLiquidity(b) + SubmittedLots(ops) <= U64_MAX
    ensures AllowedRun(b, ops)
    decreases |ops|
  {
    hide Inv, Apply, Ids, TotalLiquidity, OpenLots, Admissible;
    if ops != [] {
      var op, later := ops[0], ops[1..];
      if op.InsertOp? { RoomForAll(b, op.order); }
      StepUsesLots(b, op);
      StepIds(b, op);
      var b1 := Apply(b, op);
      forall i | 0 <= i < |later| && later[i].InsertOp?
        ensures later[i].order.id !in Ids(b1.bids) + Ids(b1.asks)
      {
        assert later[i] == ops[i + 1];
      }
      assert FreshOrders(later) by {
        forall i, j | 0 <= i < j < |later| && later[i].InsertOp? && later[j].InsertOp?
          ensures later[i].order.id != later[j].order.id
        {
          assert later[i] == ops[i + 1] && later[j] == ops[j + 1];
        }
      }
      AllowedFrom(b1, later);
    }
  }

  lemma EmptyHasNone(ops: seq<Op>)
    ensures Inv(EMPTY) && TotalLiquidity(EMPTY) == 0 && NoneResting(EMPTY, ops)
  {}

  /** A run with fresh ids whose submissions together fit u64 is allowed, whatever else
      it does and in whatever order. */
  lemma {:induction false} FreshOrdersAreAllowed(ops: seq<Op>)
    requires FreshOrders(ops) && SubmittedLots(ops) <= U64_MAX
    ensures AllowedRun(EMPTY, ops)
  {
    hide Inv, AllowedRun, FreshOrders, NoneResting, TotalLiquidity;
    EmptyHasNone(ops);
    AllowedFrom(EMPTY, ops);
  }

  // ---------------------------------------------------------------------
  // What a run trades
  // ---------------------------------------------------------------------

  /** Every order with a limit is priced within `bound` of zero. */
  predicate PricesWithin(ops: seq<Op>, bound: nat) {
    forall i :: 0 <= i < |ops| && ops[i].InsertOp? && !ops[i].order.orderType.Market? ==>
      Abs(ops[i].order.price) <= bound
  }

  function DealLots(ds: seq<Deal>): nat {
    if ds == [] then 0 else ds[0].fill.quantity + DealLots(ds[1..])
  }

  predicate DealsWithin(ds: seq<Deal>, bound: nat) {
    forall i :: 0 <= i < |ds| ==> Abs(ds[i].fill.price) <= bound && ds[i].fill.quantity > 0
  }

  lemma {:induction false} DealsOfFills(fs: seq<Fill>, side: Side, owner: OrderId -> U64)
    ensures var ds := DealsOf(fs, side, owner);
      |ds| == |fs| && DealLots(ds) == Traded(fs) && forall i :: 0 <= i < |fs| ==> ds[i].fill == fs[i]
  {
    if fs != [] {
      DealsOfFills(fs[1..], side, owner);
      assert DealsOf(fs, side, owner)[1..] == DealsOf(fs[1..], side, owner);
    }
  }

  lemma {:induction false} DealLotsAppend(a: seq<Deal>, b: seq<Deal>)
    ensures DealLots(a + b) == DealLots(a) + DealLots(b)
  {
    if a == [] {
      assert a + b == b;
    } else {
      assert (a + b)[1..] == a[1..] + b;
      DealLotsAppend(a[1..], b);
    }
  }

  lemma {:induction false} SubmittedLotsSnoc(ops: seq<Op>, op: Op)
    ensures SubmittedLots(ops + [op]) == SubmittedLots(ops) + if op.InsertOp? then OpenLots(op.order) else 0
  {
    if ops == [] {
      assert ops + [op] == [op] && [op][1..] == [];
    } else {
      assert (ops + [op])[1..] == ops[1..] + [op];
      SubmittedLotsSnoc(ops[1..], op);
    }
  }

  lemma {:induction false} RunDealsSnoc(b: Book, ops: seq<Op>, owner: OrderId -> U64)
    requires Inv(b) && ops != [] && AllowedRun(b, ops)
    ensures var n := |ops| - 1;
      && AllowedRun(b, ops[..n]) && Allowed(Run(b, ops[..n]), ops[n])
      && RunDeals(b, ops, owner) ==
         RunDeals(b, ops[..n], owner) + DealsOfReply(ops[n], Answer(Run(b, ops[..n]), ops[n]), owner)
    decreases |ops|
  {
    hide Inv, Apply, Allowed, Answer, DealsOfReply, AllowedRun, Run, RunDeals;
    var n := |ops| - 1;
    RunSnoc(b, ops);
    RunStep(b, ops);
    RunDealsStep(b, ops, owner);
    if n > 0 {
      var b1 := Apply(b, ops[0]);
      RunDealsSnoc(b1, ops[1..], owner);
      assert ops[1..][..n - 1] == ops[..n][1..] && ops[..n][0] == ops[0];
      RunStep(b, ops[..n]);
      RunDealsStep(b, ops[..n], owner);
    } else {
      RunEnd(b, ops[..n]);
      RunEnd(Apply(b, ops[0]), ops[1..]);
      NoDeals(b, ops[..n], owner);
      NoDeals(Apply(b, ops[0]), ops[1..], owner);
    }
  }

  lemma {:induction false} NoDeals(b: Book, ops: seq<Op>, owner: OrderId -> U64)
    requires Inv(b) && ops == [] && AllowedRun(b, ops)
    ensures RunDeals(b, ops, owner) == []
  {}

  /** The deals of one call are at prices of resting orders, one positive quantity each. */
  lemma StepDeals(b: Book, op: Op, owner: OrderId -> U64, bound: nat)
    requires Inv(b) && Allowed(b, op) && forall o :: o in b.bids + b.asks ==> Abs(o.price) <= bound
    ensures var ds := DealsOfReply(op, Answer(b, op), owner);
      DealsWithin(ds, bound) && DealLots(ds) == Traded(FillsOf(Answer(b, op)))
  {
    hide Inv, Insert, Admissible;
    NothingTraded();
    if op.InsertOp? {
      var o := op.order;
      var fs := Insert(b, o, op.now).fills;
      DealsOfFills(fs, o.side, owner);
      forall i | 0 <= i < |fs| ensures Abs(fs[i].price) <= bound && fs[i].quantity > 0 {
        MakerAt(b, o, op.now, i);
        assert Makers(b, o)[i] in b.bids + b.asks;
      }
    }
  }

  lemma MakerAt(b: Book, o: Order, now: U64, i: nat)
    requires Inv(b) && Admissible(b, o) && i < |Insert(b, o, now).fills|
    ensures var f, q := Insert(b, o, now).fills[i], Makers(b, o); i < |q| && f.price == q[i].price && f.quantity > 0
  {
    hide Insert, Admissible, Sorted, Distinct, Resting, Ids, Liquidity;
    FillsAreAQueuePrefix(b, o, now);
    assert Trades(Insert(b, o, now).fills[i], Makers(b, o)[i], o);
  }

  /** Resting orders have the limits they were submitted with. */
  lemma {:induction false} RestingPrices(ops: seq<Op>, bound: nat)
    requires AllowedRun(EMPTY, ops) && PricesWithin(ops, bound)
    ensures forall o :: o in Run(EMPTY, ops).bids + Run(EMPTY, ops).asks ==> Abs(o.price) <= bound
  {
    hide Run, AllowedRun, Aged;
    ReachableBookIsInArrivalOrder(ops);
    ReachableBookIsSound(ops);
    var b := Run(EMPTY, ops);
    forall o | o in b.bids + b.asks ensures Abs(o.price) <= bound {
      assert Origin(ops, o) && o.Rests();
      assert Submits(ops[LastSubmission(ops, o.id)], o.id);
    }
  }

  /** What a run trades, bounded by what it submits. */
  lemma {:induction false} RunDealsWithin(ops: seq<Op>, owner: OrderId -> U64, bound: nat)
    requires AllowedRun(EMPTY, ops) && PricesWithin(ops, bound)
    ensures var ds := RunDeals(EMPTY, ops, owner);
      DealsWithin(ds, bound) && TotalLiquidity(Run(EMPTY, ops)) + 2 * DealLots(ds) <= SubmittedLots(ops)
    decreases |ops|
  {
    hide Inv, AllowedRun, Run, RunDeals, Apply, Answer, Allowed, DealsOfReply, TotalLiquidity, OpenLots;
    EmptyHasNone(ops);
    if ops == [] {
      RunEnd(EMPTY, ops);
      NoDeals(EMPTY, ops, owner);
    } else {
      var n := |ops| - 1;
      RunSnoc(EMPTY, ops);
      RunDealsSnoc(EMPTY, ops, owner);
      var b := Run(EMPTY, ops[..n]);
      RunDealsWithin(ops[..n], owner, bound);
      RestingPrices(ops[..n], bound);
      StepDeals(b, ops[n], owner, bound);
      StepUsesLots(b, ops[n]);
      DealLotsAppend(RunDeals(EMPTY, ops[..n], owner), DealsOfReply(ops[n], Answer(b, ops[n]), owner));
      SubmittedLotsSnoc(ops[..n], ops[n]);
      assert ops[..n] + [ops[n]] == ops;
    }
  }

  // ---------------------------------------------------------------------
  // What the tracker's fields hold
  // ---------------------------------------------------------------------

  /** The most that `lots` lots can gain or lose at prices within `bound`. */
  function Exposure(bound: nat, lots: nat): nat {
    2 * bound * lots
  }

  /** What an account can hold after `lots` lots at prices within `bound`. */
  predicate SmallAccount(a: Account, bound: nat, lots: nat) {
    Abs(a.net) <= lots && Abs(a.avg) <= bound && Abs(a.realized) <= Exposure(bound, lots)
  }

  predicate Small(p: Position, bound: nat, lots: nat) {
    SmallAccount(p.AtCost(), bound, lots)
  }

  /** Everything fits i64 even if all lots are held at the worst prices. */
  predicate Affordable(bound: nat, lots: nat) {
    lots <= I64_MAX && Exposure(bound, lots) <= I64_MAX
  }

  lemma AbsProduct(x: int, y: int, most: nat, times: nat)
    requires Abs(x) <= most && Abs(y) <= times
    ensures Abs(x * y) <= most * times
  {
    MulMono(Abs(x), most, Abs(y));
    MulMono(Abs(y), times, most);
    MulNegate(x, y);
    MulNegate(-x, y);
  }

  lemma ExposureGrows(bound: nat, used: nat, more: nat)
    ensures Exposure(bound, used + more) == Exposure(bound, used) + Exposure(bound, more)
  {
    MulDistributes(used, more, 2 * bound);
  }

  /** Holding or closing `lots` lots from `avg` to `price` stays within the exposure. */
  lemma GainFits(price: int, avg: int, lots: int, bound: nat, limit: nat)
    requires Abs(price) <= bound && Abs(avg) <= bound && Abs(lots) <= limit
    ensures Abs((price - avg) * lots) <= Exposure(bound, limit) && Abs(price - avg) <= 2 * bound
    ensures limit > 0 ==> Abs(price - avg) <= Exposure(bound, limit)
  {
    AbsProduct(price - avg, lots, 2 * bound, limit);
    if limit > 0 { MulMono(1, limit, 2 * bound); }
  }

  /** A fill within the budget is in range. */
  lemma FillIsInRange(p: Position, fill: Fill, side: Side, bound: nat, used: nat, limit: nat)
    requires Small(p, bound, used) && Abs(fill.price) <= bound && used + fill.quantity <= limit
    requires Affordable(bound, limit) && p.tradeCount < U64_MAX
    ensures InRange(p, fill, side)
  {
    CastExact(fill.quantity);
    ExposureGrows(bound, used, fill.quantity);
    ExposureGrows(bound, used + fill.quantity, limit - used - fill.quantity);
    hide Exposure, CastI64;
    var closed := Min(Abs(p.netQuantity), fill.quantity);
    GainFits(fill.price, p.avgEntryPrice, closed, bound, fill.quantity);
    GainFits(p.avgEntryPrice, fill.price, closed, bound, fill.quantity);
    GainFits(fill.price, p.avgEntryPrice, 0, bound, limit);
  }

  lemma AddingStaysSmall(a: Account, signed: int, price: int, bound: nat, used: nat)
    requires SmallAccount(a, bound, used) && Abs(price) <= bound && SameDirection(a, signed)
    ensures SmallAccount(BookTrade(a, signed, price), bound, used + Abs(signed))
  {
    hide TruncDiv, Exposure;
    ExposureGrows(bound, used, Abs(signed));
    var top: int := bound;
    AverageBetween(a.net, signed, a.avg, price, -top, top);
  }

  lemma ReducingStaysSmall(a: Account, signed: int, price: int, bound: nat, used: nat)
    requires SmallAccount(a, bound, used) && Abs(price) <= bound && !SameDirection(a, signed)
    ensures SmallAccount(BookTrade(a, signed, price), bound, used + Abs(signed))
  {
    hide TruncDiv, Exposure;
    ExposureGrows(bound, used, Abs(signed));
    var closed := Min(Abs(a.net), Abs(signed));
    GainFits(price, a.avg, closed, bound, Abs(signed));
    GainFits(a.avg, price, closed, bound, Abs(signed));
  }

  /** And it leaves a position within the budget. */
  lemma FillStaysSmall(p: Position, fill: Fill, side: Side, bound: nat, used: nat)
    requires Small(p, bound, used) && Abs(fill.price) <= bound && fill.quantity <= I64_MAX && InRange(p, fill, side)
    ensures Small(Filled(p, fill, side), bound, used + fill.quantity)
  {
    hide Exposure, InRange, BookTrade, Filled;
    var signed := SignedQuantity(side, fill.quantity);
    if SameDirection(p.AtCost(), signed) {
      AddingStaysSmall(p.AtCost(), signed, fill.price, bound, used);
    } else {
      ReducingStaysSmall(p.AtCost(), signed, fill.price, bound, used);
    }
  }

  function TotalLots(bs: seq<Booking>): nat {
    if bs == [] then 0 else bs[0].fill.quantity + TotalLots(bs[1..])
  }

  predicate BookingsWithin(bs: seq<Booking>, bound: nat) {
    forall i :: 0 <= i < |bs| ==> Abs(bs[i].fill.price) <= bound
  }

  predicate AllSmall(ps: PositionMap, bound: nat, lots: nat, count: nat) {
    forall k :: k in ps ==> Small(ps[k], bound, lots) && ps[k].tradeCount <= count
  }

  lemma SmallGrows(p: Position, bound: nat, used: nat, more: nat)
    requires Small(p, bound, used)
    ensures Small(p, bound, used + more)
  {
    ExposureGrows(bound, used, more);
  }

  lemma BookingStaysSmall(ps: PositionMap, b: Booking, bound: nat, used: nat, count: nat, limit: nat)
    requires AllSmall(ps, bound, used, count) && Abs(b.fill.price) <= bound && used + b.fill.quantity <= limit
    requires Affordable(bound, limit) && count < U64_MAX
    ensures Bookable(ps, b) && AllSmall(Booked(ps, b), bound, used + b.fill.quantity, count + 1)
  {
    hide InRange, Filled, Small, FilledAccount, Exposure;
    var p := At(ps, b.symbolHash);
    if b.symbolHash !in ps { NewIsSmall(b.symbolHash, bound, used); }
    FillIsInRange(p, b.fill, b.side, bound, used, limit);
    FillStaysSmall(p, b.fill, b.side, bound, used);
    forall k | k in Booked(ps, b)
      ensures Small(Booked(ps, b)[k], bound, used + b.fill.quantity) && Booked(ps, b)[k].tradeCount <= count + 1
    {
      if k != b.symbolHash { SmallGrows(ps[k], bound, used, b.fill.quantity); }
    }
  }

  lemma NewIsSmall(k: U64, bound: nat, used: nat)
    ensures Small(Position.New(k), bound, used)
  {}

  lemma {:induction false} BookingsStaySmall(
    ps: PositionMap, bs: seq<Booking>, bound: nat, used: nat, count: nat, limit: nat)
    requires AllSmall(ps, bound, used, count) && BookingsWithin(bs, bound) && used + TotalLots(bs) <= limit
    requires Affordable(bound, limit) && count + |bs| <= U64_MAX
    ensures AllBookable(ps, bs) && AllSmall(BookedAll(ps, bs), bound, used + TotalLots(bs), count + |bs|)
    decreases |bs|
  {
    hide Bookable, Booked, AllSmall, Affordable;
    if bs != [] {
      BookingStaysSmall(ps, bs[0], bound, used, count, limit);
      BookingsStaySmall(Booked(ps, bs[0]), bs[1..], bound, used + bs[0].fill.quantity, count + 1, limit);
    }
  }

  lemma SmallIsMarkable(ps: PositionMap, bound: nat, lots: nat, count: nat, mark: int)
    requires AllSmall(ps, bound, lots, count) && Affordable(bound, lots) && Abs(mark) <= bound
    ensures Markable(ps, mark)
  {
    hide Exposure;
    forall k | k in ps
      ensures FitsI64(ps[k].netQuantity * (mark - ps[k].avgEntryPrice))
      ensures ps[k].netQuantity != 0 ==> FitsI64(mark - ps[k].avgEntryPrice)
    {
      PositionIsMarkable(ps[k], bound, lots, mark);
    }
  }

  lemma PositionIsMarkable(p: Position, bound: nat, lots: nat, mark: int)
    requires Small(p, bound, lots) && Affordable(bound, lots) && Abs(mark) <= bound
    ensures FitsI64(p.netQuantity * (mark - p.avgEntryPrice))
    ensures p.netQuantity != 0 ==> FitsI64(mark - p.avgEntryPrice)
  {
    hide Exposure;
    GainFits(mark, p.avgEntryPrice, p.netQuantity, bound, lots);
  }

  lemma {:induction false} BookingsOfDeals(ds: seq<Deal>, bound: nat)
    requires DealsWithin(ds, bound)
    ensures var bs := Bookings(ds);
      BookingsWithin(bs, bound) && TotalLots(bs) == 2 * DealLots(ds) && |bs| <= TotalLots(bs)
  {
    if ds != [] {
      BookingsOfDeals(ds[1..], bound);
      var bs := Bookings(ds);
      assert bs[1..][1..] == Bookings(ds[1..]);
    }
  }

  /** Prices and lots fix the range before the run: if no limit nor the mark is further
      from zero than `bound`, and all submitted lots at twice that price fit i64, then
      no booking of the run overflows and every position can be revalued. */
  lemma {:induction false} PricesAndLotsKeepRange(ops: seq<Op>, owner: OrderId -> U64, bound: nat, mark: int)
    requires AllowedRun(EMPTY, ops) && PricesWithin(ops, bound) && Abs(mark) <= bound
    requires Affordable(bound, SubmittedLots(ops))
    ensures var bs := Bookings(RunDeals(EMPTY, ops, owner));
      AllBookable(map[], bs) && Markable(BookedAll(map[], bs), mark)
  {
    hide AllowedRun, Run, RunDeals, PricesWithin, AllBookable, BookedAll, Markable, DealsWithin, BookingsWithin,
      Bookings, DealLots, TotalLots, SubmittedLots, TotalLiquidity, Small;
    var ds, lots := RunDeals(EMPTY, ops, owner), SubmittedLots(ops);
    RunDealsWithin(ops, owner, bound);
    BookingsOfDeals(ds, bound);
    var bs := Bookings(ds);
    BookingsStaySmall(map[], bs, bound, 0, 0, lots);
    ExposureGrows(bound, TotalLots(bs), lots - TotalLots(bs));
    SmallIsMarkable(BookedAll(map[], bs), bound, TotalLots(bs), |bs|, mark);
  }
}
