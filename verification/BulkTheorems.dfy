/** What batch validation guarantees, on its own and together with the book. */
module BulkTheorems {
  import opened Orders
  import opened NaiveBook
  import opened QueueLemmas
  import opened BookInvariant
  import opened Accounting
  import opened Positions
  import opened Risk
  import opened Bulk

  // ---------------------------------------------------------------------
  // One outcome each
  // ---------------------------------------------------------------------

  /** Every order has exactly one entry, in one of the two result lists, at the
      place its predecessors of the same outcome leave for it. */
  lemma {:induction false} OneOutcomeEach(r: Rules, p: Progress, os: seq<Order>, k: nat)
    requires k < |os|
    ensures var acc, ref := AcceptedOrders(r, p, os), Refusals(r, p, os);
      |acc| + |ref| == |os| &&
      match Judge(r, After(r, p, os, k), os[k])
      case Accepted =>
        var at := |AcceptedOrders(r, p, os[..k])|;
        at < |acc| && acc[at] == os[k]
      case Refused(reason) =>
        var at := |Refusals(r, p, os[..k])|;
        at < |ref| && ref[at] == (os[k].id, reason)
    decreases |os|
  {
    if k > 0 {
      assert os[..k][1..] == os[1..][..k - 1] && os[..k][0] == os[0];
      OneOutcomeEach(r, Next(r, p, os[0]), os[1..], k - 1);
    } else if |os| > 1 {
      OneOutcomeEach(r, Next(r, p, os[0]), os[1..], 0);
    } else {
      assert os[1..] == [];
    }
  }

  lemma {:induction false} AcceptedIdsAreNew(r: Rules, p: Progress, os: seq<Order>)
    ensures Distinct(AcceptedOrders(r, p, os)) && Ids(AcceptedOrders(r, p, os)) !! p.seen
    decreases |os|
  {
    if os != [] {
      var acc := AcceptedOrders(r, Next(r, p, os[0]), os[1..]);
      AcceptedIdsAreNew(r, Next(r, p, os[0]), os[1..]);
      if Judge(r, p, os[0]).Accepted? {
        assert ([os[0]] + acc)[1..] == acc;
      }
    }
  }

  // ---------------------------------------------------------------------
  // The running position
  // ---------------------------------------------------------------------

  function SignedSum(os: seq<Order>): int {
    if os == [] then 0 else SignedQuantity(os[0].side, os[0].quantity) + SignedSum(os[1..])
  }

  /** Orders whose quantity the cast to i64 turns negative, counted by side. */
  function SignedOversized(os: seq<Order>): int {
    if os == [] then 0
    else SignedQuantity(os[0].side, if os[0].quantity > I64_MAX then 1 else 0) + SignedOversized(os[1..])
  }

  /** Whatever the rules, the running position is the start plus the signed accepted
      quantities, short by 2^64 for every oversized order among them. */
  lemma {:induction false} PositionIsSumOfCasts(r: Rules, p: Progress, os: seq<Order>)
    ensures var acc := AcceptedOrders(r, p, os);
      After(r, p, os, |os|).position == p.position + SignedSum(acc) - 0x1_0000_0000_0000_0000 * SignedOversized(acc)
    decreases |os|
  {
    if os != [] {
      var q := Next(r, p, os[0]);
      PositionIsSumOfCasts(r, q, os[1..]);
      var acc := AcceptedOrders(r, q, os[1..]);
      if Judge(r, p, os[0]).Accepted? {
        assert ([os[0]] + acc)[1..] == acc;
        CastTakesOff(os[0].quantity);
      }
    }
  }

  lemma CastTakesOff(n: U64)
    ensures CastI64(n) == n - 0x1_0000_0000_0000_0000 * if n > I64_MAX then 1 else 0
  {}

  /** Nothing oversized can be accepted: a check made before the call, on the limits
      or on the batch. */
  predicate Sized(r: Rules, os: seq<Order>) {
    || (r.limits.enabled && r.limits.maxOrderSize <= I64_MAX)
    || (forall i :: 0 <= i < |os| ==> os[i].quantity <= I64_MAX)
  }

  lemma {:induction false} NothingOversized(r: Rules, p: Progress, os: seq<Order>)
    requires Sized(r, os)
    ensures SignedOversized(AcceptedOrders(r, p, os)) == 0
    decreases |os|
  {
    if os != [] {
      var q := Next(r, p, os[0]);
      NothingOversized(r, q, os[1..]);
      var acc := AcceptedOrders(r, q, os[1..]);
      if Judge(r, p, os[0]).Accepted? {
        assert ([os[0]] + acc)[1..] == acc;
      }
    }
  }

  lemma {:induction false} AfterPrefix(r: Rules, p: Progress, os: seq<Order>, k: nat)
    requires k <= |os|
    ensures After(r, p, os, k) == After(r, p, os[..k], k)
    decreases k
  {
    if k > 0 {
      assert os[..k][1..] == os[1..][..k - 1];
      AfterPrefix(r, Next(r, p, os[0]), os[1..], k - 1);
    }
  }

  /** At every point of a sized batch the running position is the start plus the
      signed quantities accepted so far. */
  lemma {:induction false} PositionIsSumOfAccepted(r: Rules, p: Progress, os: seq<Order>, k: nat)
    requires Sized(r, os) && k <= |os|
    ensures After(r, p, os, k).position == p.position + SignedSum(AcceptedOrders(r, p, os[..k]))
  {
    AfterPrefix(r, p, os, k);
    PositionIsSumOfCasts(r, p, os[..k]);
    NothingOversized(r, p, os[..k]);
  }

  /** With limits enabled, the running position is within the limit after every
      acceptance, and so, in a sized batch, are the quantities accepted so far. */
  lemma {:induction false} PositionWithinLimit(r: Rules, p: Progress, os: seq<Order>, k: nat)
    requires r.limits.enabled && k < |os|
    requires Judge(r, After(r, p, os, k), os[k]).Accepted?
    ensures Abs(After(r, p, os, k + 1).position) <= r.limits.maxPosition
    ensures Sized(r, os) ==> Abs(p.position + SignedSum(AcceptedOrders(r, p, os[..k + 1]))) <= r.limits.maxPosition
  {
    RunningPositionWithinLimit(r, p, os, k);
    if Sized(r, os) { PositionIsSumOfAccepted(r, p, os, k + 1); }
  }

  lemma {:induction false} RunningPositionWithinLimit(r: Rules, p: Progress, os: seq<Order>, k: nat)
    requires r.limits.enabled && k < |os|
    requires Judge(r, After(r, p, os, k), os[k]).Accepted?
    ensures Abs(After(r, p, os, k + 1).position) <= r.limits.maxPosition
    decreases |os|
  {
    if k > 0 { RunningPositionWithinLimit(r, Next(r, p, os[0]), os[1..], k - 1); }
  }

  // ---------------------------------------------------------------------
  // Which rules keep the position true
  // ---------------------------------------------------------------------

  /** The rules let an order through whose quantity the cast turns negative. */
  predicate AdmitsOversized(r: Rules) {
    !r.limits.enabled ||
    (&& r.limits.minOrderSize <= r.limits.maxOrderSize && I64_MAX < r.limits.maxOrderSize
     && 0 <= r.limits.maxNotional && r.ordersInPeriod < r.limits.maxOrdersPerPeriod)
  }

  /** For every start and batch without overflow, the running position ends as the
      start plus the signed accepted quantities. */
  ghost predicate KeepsPosition(r: Rules) {
    forall start: I64, os: seq<Order> :: RunInRange(r, Start(start), os) ==>
      After(r, Start(start), os, |os|).position == start + SignedSum(AcceptedOrders(r, Start(start), os))
  }

  /** For every start and batch without overflow, the start plus the signed quantities
      accepted so far is within the position limit after every acceptance. */
  ghost predicate KeepsLimit(r: Rules) {
    forall start: I64, os: seq<Order>, k: nat ::
      k < |os| && RunInRange(r, Start(start), os) && Judge(r, After(r, Start(start), os, k), os[k]).Accepted? ==>
        Abs(start + SignedSum(AcceptedOrders(r, Start(start), os[..k + 1]))) <= r.limits.maxPosition
  }

  /** Rules that let nothing oversized through accept nothing oversized. */
  lemma {:induction false} NothingOversizedPasses(r: Rules, p: Progress, os: seq<Order>)
    requires !AdmitsOversized(r)
    ensures SignedOversized(AcceptedOrders(r, p, os)) == 0
    decreases |os|
  {
    if os != [] {
      var q := Next(r, p, os[0]);
      NothingOversizedPasses(r, q, os[1..]);
      var acc := AcceptedOrders(r, q, os[1..]);
      if Judge(r, p, os[0]).Accepted? {
        assert ([os[0]] + acc)[1..] == acc;
        assert Abs(os[0].price * os[0].quantity) >= 0;
      }
    }
  }

  /** Under rules that let something oversized through, one ask at price 0 takes the
      running position to 0 and the true one to -2^64. */
  lemma OversizedOrderIsMiscounted(r: Rules) returns (start: I64, o: Order)
    requires AdmitsOversized(r)
    ensures RunInRange(r, Start(start), [o]) && Judge(r, Start(start), o).Accepted?
    ensures AcceptedOrders(r, Start(start), [o]) == [o]
    ensures After(r, Start(start), [o], 1).position == 0 && start + SignedSum([o]) == -0x1_0000_0000_0000_0000
  {
    var n: U64 := if r.limits.enabled then r.limits.maxOrderSize else U64_MAX;
    o := Order(1, Ask, Limit, 0, n, 0, 0, GTC);
    start := CastI64(n);
    assert [o][1..] == [] && o.price * o.quantity == 0;
    CastTakesOff(n);
  }

  /** The running position is the true one in every batch if and only if the rules let
      nothing oversized through. */
  lemma {:induction false} KeepsPositionExactlyWhen(r: Rules)
    ensures KeepsPosition(r) <==> !AdmitsOversized(r)
  {
    hide RunInRange, After, AcceptedOrders, SignedSum, SignedOversized, Judge, AdmitsOversized;
    if AdmitsOversized(r) {
      var start, o := OversizedOrderIsMiscounted(r);
      assert After(r, Start(start), [o], |[o]|).position != start + SignedSum(AcceptedOrders(r, Start(start), [o]));
    } else {
      forall start: I64, os: seq<Order> | RunInRange(r, Start(start), os)
        ensures After(r, Start(start), os, |os|).position == start + SignedSum(AcceptedOrders(r, Start(start), os))
      {
        PositionIsSumOfCasts(r, Start(start), os);
        NothingOversizedPasses(r, Start(start), os);
      }
    }
  }

  /** With limits enabled, what is accepted stays within the position limit in every
      batch if and only if the rules let nothing oversized through. */
  lemma {:induction false} KeepsLimitExactlyWhen(r: Rules)
    requires r.limits.enabled
    ensures KeepsLimit(r) <==> !AdmitsOversized(r)
  {
    hide RunInRange, AcceptedOrders, SignedSum, SignedOversized, Judge, AdmitsOversized;
    if AdmitsOversized(r) {
      var start, o := OversizedOrderIsMiscounted(r);
      assert [o][..1] == [o] && [o][0] == o && After(r, Start(start), [o], 0) == Start(start);
      assert Abs(start + SignedSum(AcceptedOrders(r, Start(start), [o][..0 + 1]))) > r.limits.maxPosition;
    } else {
      forall start: I64, os: seq<Order>, k: nat |
        k < |os| && RunInRange(r, Start(start), os) && Judge(r, After(r, Start(start), os, k), os[k]).Accepted?
        ensures Abs(start + SignedSum(AcceptedOrders(r, Start(start), os[..k + 1]))) <= r.limits.maxPosition
      {
        RunningPositionWithinLimit(r, Start(start), os, k);
        AfterPrefix(r, Start(start), os, k + 1);
        PositionIsSumOfCasts(r, Start(start), os[..k + 1]);
        NothingOversizedPasses(r, Start(start), os[..k + 1]);
      }
    }
  }

  /** A check a caller can make once: if the start position or the limit, plus one
      maximal order, fits i64, then no batch of any length overflows. */
  lemma {:induction false} LimitsKeepRange(r: Rules, p: Progress, os: seq<Order>)
    requires r.limits.enabled
    requires Abs(p.position) + r.limits.maxOrderSize <= I64_MAX
    requires r.limits.maxPosition + r.limits.maxOrderSize <= I64_MAX
    ensures RunInRange(r, p, os)
    decreases |os|
  {
    if os != [] {
      if SizeOk(r.limits, os[0]) { CastExact(os[0].quantity); }
      var q := Next(r, p, os[0]);
      assert q.position == p.position || Abs(q.position) <= r.limits.maxPosition;
      LimitsKeepRange(r, q, os[1..]);
    }
  }

  // ---------------------------------------------------------------------
  // Self-trades
  // ---------------------------------------------------------------------

  predicate BelowAsk(p: Progress, os: seq<Order>) {
    forall i :: 0 <= i < |os| && os[i].side.Bid? && p.bestAsk.Some? ==> os[i].price < p.bestAsk.value
  }

  predicate AboveBid(p: Progress, os: seq<Order>) {
    forall i :: 0 <= i < |os| && os[i].side.Ask? && p.bestBid.Some? ==> p.bestBid.value < os[i].price
  }

  /** No bid of the list is priced at or above an ask of the list. */
  predicate Separated(os: seq<Order>) {
    forall i, j :: 0 <= i < |os| && 0 <= j < |os| && os[i].side.Bid? && os[j].side.Ask? ==> os[i].price < os[j].price
  }

  lemma SeparatedCons(o: Order, os: seq<Order>)
    requires Separated(os)
    requires forall i :: 0 <= i < |os| && o.side.Bid? && os[i].side.Ask? ==> o.price < os[i].price
    requires forall i :: 0 <= i < |os| && o.side.Ask? && os[i].side.Bid? ==> os[i].price < o.price
    ensures Separated([o] + os)
  {
    var c := [o] + os;
    assert forall i :: 0 < i < |c| ==> c[i] == os[i - 1];
  }

  /** With self-trade prevention on, every accepted bid is below every accepted ask. */
  lemma {:induction false} AcceptedDoNotCross(r: Rules, p: Progress, os: seq<Order>)
    requires r.selfTradePrevention
    ensures var acc := AcceptedOrders(r, p, os); Separated(acc) && BelowAsk(p, acc) && AboveBid(p, acc)
    decreases |os|
  {
    if os != [] {
      var o, q := os[0], Next(r, p, os[0]);
      AcceptedDoNotCross(r, q, os[1..]);
      var acc := AcceptedOrders(r, q, os[1..]);
      if Judge(r, p, o).Accepted? {
        SeparatedCons(o, acc);
      }
    }
  }

  // ---------------------------------------------------------------------
  // Together with the book
  // ---------------------------------------------------------------------

  function Submissions(os: seq<Order>, now: U64): seq<Op> {
    if os == [] then [] else [InsertOp(os[0], now)] + Submissions(os[1..], now)
  }

  /** What an order that trades nothing leaves resting on side `s`. */
  function RestingQuantity(o: Order, s: Side): nat {
    if o.side == s && o.Rests() && !o.IsFilled() then o.Remaining() else 0
  }

  function SideTotal(os: seq<Order>, s: Side): nat {
    if os == [] then 0 else RestingQuantity(os[0], s) + SideTotal(os[1..], s)
  }

  /** Side by side, the book has room for all that the orders could leave resting. */
  predicate HasRoom(b: Book, os: seq<Order>)
    requires Live(b.bids) && Live(b.asks)
  {
    && Liquidity(b.bids) + SideTotal(os, Bid) <= U64_MAX
    && Liquidity(b.asks) + SideTotal(os, Ask) <= U64_MAX
  }

  /** No order of the list can trade with what rests. */
  predicate Passive(b: Book, os: seq<Order>) {
    forall i :: 0 <= i < |os| ==>
      if os[i].side.Bid? then b.asks != [] ==> os[i].price < b.asks[0].price
      else b.bids != [] ==> os[i].price > b.bids[0].price
  }

  predicate Priced(os: seq<Order>) {
    forall i :: 0 <= i < |os| ==>
      !os[i].orderType.Market? && (os[i].timeInForce.FOK? ==> os[i].filledQuantity <= os[i].quantity)
  }

  /** A passive order only rests, or leaves no trace. */
  lemma {:induction false} PassiveInsert(b: Book, o: Order, now: U64)
    requires Inv(b) && !o.orderType.Market? && (o.timeInForce.FOK? ==> o.filledQuantity <= o.quantity)
    requires o.id !in Ids(b.bids) + Ids(b.asks)
    requires Liquidity(b.Queue(o.side)) + RestingQuantity(o, o.side) <= U64_MAX
    requires var q := b.Queue(o.side.Opposite()); q != [] ==> !Reaches(o, q[0].price)
    ensures Admissible(b, o)
    ensures var r := Insert(b, o, now);
      && Inv(r.book) && r.fills == []
      && (r.book == b || r.book == b.With(o.side, Enqueue(b.Queue(o.side), o)))
      && Ids(r.book.bids) + Ids(r.book.asks) <= Ids(b.bids) + Ids(b.asks) + {o.id}
      && Liquidity(r.book.bids) <= Liquidity(b.bids) + RestingQuantity(o, Bid)
      && Liquidity(r.book.asks) <= Liquidity(b.asks) + RestingQuantity(o, Ask)
  {
    hide Match, Enqueue, Sorted, Distinct, Resting, Ids, Liquidity, Reaches, Uncrossed, Live;
    MatchesNothing(b.Queue(o.side.Opposite()), o);
    InsertKeepsInv(b, o, now);
    if o.Rests() && !o.IsFilled() { EnqueueOk(o.side, b.Queue(o.side), o); }
  }

  /** Submitting separated, priced, distinct orders to a book they are passive to
      trades nothing at all. */
  lemma {:induction false} NoFillsFrom(b: Book, os: seq<Order>, now: U64)
    requires Inv(b) && Separated(os) && Passive(b, os) && Priced(os) && Distinct(os)
    requires Ids(os) !! Ids(b.bids) + Ids(b.asks) && HasRoom(b, os)
    ensures AllowedRun(b, Submissions(os, now))
    ensures |Submissions(os, now)| == |os|
    ensures forall i :: 0 <= i < |os| ==> Replies(b, Submissions(os, now))[i] == Fills([])
    decreases |os|
  {
    hide Inv, Insert, Ids, Distinct, Liquidity, SideTotal, RestingQuantity, Separated, Passive, Priced;
    if os != [] {
      var o := os[0];
      TailKeeps(os);
      FrontIsPassive(b, os);
      PassiveInsert(b, o, now);
      var b1 := Insert(b, o, now).book;
      StaysPassive(b, os, now);
      var ops, rest := Submissions(os, now), Submissions(os[1..], now);
      assert ops[0] == InsertOp(o, now) && ops[1..] == rest;
      NoFillsFrom(b1, os[1..], now);
      assert Replies(b, ops) == [Fills([])] + Replies(b1, rest);
    }
  }

  lemma {:induction false} TailKeeps(os: seq<Order>)
    requires os != [] && Separated(os) && Priced(os) && Distinct(os)
    ensures !os[0].orderType.Market? && (os[0].timeInForce.FOK? ==> os[0].filledQuantity <= os[0].quantity)
    ensures Separated(os[1..]) && Priced(os[1..]) && Distinct(os[1..])
    ensures Ids(os) == {os[0].id} + Ids(os[1..]) && os[0].id !in Ids(os[1..])
    ensures forall s: Side :: SideTotal(os, s) == RestingQuantity(os[0], s) + SideTotal(os[1..], s)
  {}

  lemma FrontIsPassive(b: Book, os: seq<Order>)
    requires os != [] && Passive(b, os) && !os[0].orderType.Market?
    ensures var q := b.Queue(os[0].side.Opposite()); q != [] ==> !Reaches(os[0], q[0].price)
  {}

  lemma StaysPassive(b: Book, os: seq<Order>, now: U64)
    requires os != [] && Inv(b) && Admissible(b, os[0]) && Separated(os) && Passive(b, os)
    requires var b1 := Insert(b, os[0], now).book;
      b1 == b || b1 == b.With(os[0].side, Enqueue(b.Queue(os[0].side), os[0]))
    ensures Passive(Insert(b, os[0], now).book, os[1..])
  {
    hide Insert, Inv, Admissible;
    var b1 := Insert(b, os[0], now).book;
    forall i | 0 <= i < |os[1..]|
      ensures if os[1..][i].side.Bid? then b1.asks != [] ==> os[1..][i].price < b1.asks[0].price
              else b1.bids != [] ==> os[1..][i].price > b1.bids[0].price
    {
      assert os[1..][i] == os[i + 1];
    }
  }

  /** The accepted orders of a batch without market orders, submitted in sequence to
      an empty book that has room for them, produce no fill. */
  lemma {:induction false} AcceptedBatchesDoNotTrade(r: Rules, position: int, orders: seq<Order>, now: U64)
    requires r.selfTradePrevention
    requires var acc := AcceptedOrders(r, Start(position), orders); Priced(acc) && HasRoom(EMPTY, acc)
    ensures var acc := AcceptedOrders(r, Start(position), orders); var ops := Submissions(acc, now);
      && AllowedRun(EMPTY, ops) && |ops| == |acc|
      && forall i :: 0 <= i < |acc| ==> Replies(EMPTY, ops)[i] == Fills([])
  {
    var acc := AcceptedOrders(r, Start(position), orders);
    AcceptedDoNotCross(r, Start(position), orders);
    AcceptedIdsAreNew(r, Start(position), orders);
    NoFillsFrom(EMPTY, acc, now);
  }

  /** A market order in a batch can trade: its price decides whether it is accepted,
      and nothing else. A bid at 100 and a market ask at 101 are both accepted, and
      the second trades with the first. */
  lemma MarketOrdersTrade(r: Rules) returns (bid: Order, ask: Order)
    requires r.selfTradePrevention && !r.limits.enabled
    ensures var acc := AcceptedOrders(r, Start(0), [bid, ask]);
      && acc == [bid, ask] && HasRoom(EMPTY, acc) && ask.orderType.Market?
      && AllowedRun(EMPTY, Submissions(acc, 0))
      && Replies(EMPTY, Submissions(acc, 0)) == [Fills([]), Fills([Fill(bid.id, ask.id, bid.price, 1, 0)])]
  {
    bid := Order(1, Bid, Limit, 100, 1, 0, 0, GTC);
    ask := Order(2, Ask, Market, 101, 1, 0, 0, IOC);
    BothAccepted(r, bid, ask);
    OneTrades(bid, ask);
  }

  lemma {:induction false} BothAccepted(r: Rules, bid: Order, ask: Order)
    requires r.selfTradePrevention && !r.limits.enabled
    requires bid.side == Bid && ask.side == Ask && bid.price < ask.price && bid.id != ask.id
    requires bid.quantity > 0 && ask.quantity > 0
    ensures AcceptedOrders(r, Start(0), [bid, ask]) == [bid, ask]
  {
    assert [bid, ask][1..] == [ask] && [ask][1..] == [];
    var p := Next(r, Start(0), bid);
    assert Judge(r, Start(0), bid).Accepted? && Judge(r, p, ask).Accepted?;
    assert AcceptedOrders(r, Next(r, p, ask), []) == [];
    assert AcceptedOrders(r, p, [ask]) == [ask];
  }

  lemma OneTrades(bid: Order, ask: Order)
    requires bid.side == Bid && bid.Rests() && ask.side == Ask && ask.orderType.Market? && ask.timeInForce.IOC?
    requires bid.id != ask.id && bid.filledQuantity == ask.filledQuantity == 0 && bid.quantity == ask.quantity == 1
    requires bid.timeInForce.GTC?
    ensures var ops := Submissions([bid, ask], 0);
      && HasRoom(EMPTY, [bid, ask]) && AllowedRun(EMPTY, ops)
      && Replies(EMPTY, ops) == [Fills([]), Fills([Fill(bid.id, ask.id, bid.price, 1, ask.timestampNs)])]
  {
    assert [bid, ask][1..] == [ask] && [ask][1..] == [] && [bid][1..] == [];
    var ops := Submissions([bid, ask], 0);
    assert Submissions([], 0) == [] && Submissions([ask], 0) == [InsertOp(ask, 0)];
    assert ops == [InsertOp(bid, 0), InsertOp(ask, 0)] && ops[1..] == [InsertOp(ask, 0)] && ops[1..][1..] == [];
    assert SideTotal([], Bid) == SideTotal([], Ask) == 0 && SideTotal([ask], Bid) == SideTotal([ask], Ask) == 0;
    MatchesNothing([], bid);
    SingletonOk(Bid, bid);
    var b := Book([bid], []);
    assert Insert(EMPTY, bid, 0) == Inserted(b, []);
    SweepStep([bid], ask);
    SweepStops([], ask.Execute(1));
    assert Insert(b, ask, 0).fills == [Fill(bid.id, ask.id, bid.price, 1, ask.timestampNs)];
  }
}
