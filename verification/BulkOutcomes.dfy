/** What becomes of each order of a batch, read off the batch itself: which are
    refused, why, and which are accepted. */
module BulkOutcomes {
  import opened Orders
  import opened NaiveBook
  import opened Positions
  import opened Risk
  import opened Bulk

  // ---------------------------------------------------------------------
  // The fate of an order by its place in the batch
  // ---------------------------------------------------------------------

  predicate IsFirstOfId(os: seq<Order>, k: nat)
    requires k < |os|
  {
    forall j :: 0 <= j < k ==> os[j].id != os[k].id
  }

  /** The prices of orders `j` and `k` are on opposite sides and meet. */
  predicate Meet(os: seq<Order>, j: nat, k: nat)
    requires j < |os| && k < |os|
  {
    || (os[j].side == Ask && os[k].side == Bid && os[k].price >= os[j].price)
    || (os[j].side == Bid && os[k].side == Ask && os[k].price <= os[j].price)
  }

  /** With self-trade prevention on, the order gets as far as the risk check: its id
      is new, it is not empty, and it meets no earlier order that got as far. */
  ghost predicate ReachesRisk(os: seq<Order>, k: nat)
    requires k < |os|
    decreases k
  {
    && IsFirstOfId(os, k)
    && os[k].quantity > 0
    && forall j :: 0 <= j < k && Meet(os, j, k) ==> !ReachesRisk(os, j)
  }

  /** An earlier order that got as far as the risk check meets the order. */
  ghost predicate SelfTrades(os: seq<Order>, k: nat)
    requires k < |os|
  {
    exists j :: 0 <= j < k && Meet(os, j, k) && ReachesRisk(os, j)
  }

  /** A quantity as the position counts it: as its low 64 bits with a sign. */
  function Counted(n: U64): int {
    if n <= I64_MAX then n else n - 0x1_0000_0000_0000_0000
  }

  /** The position when order `k` is looked at: the start and what the orders accepted
      before add to it or take from it. */
  ghost function PositionAt(r: Rules, start: int, os: seq<Order>, k: nat): int
    requires k <= |os|
    decreases k, 0
  {
    if k == 0 then start
    else
      PositionAt(r, start, os, k - 1)
      + if !Fate(r, start, os, k - 1).Accepted? then 0
        else if os[k - 1].side == Bid then Counted(os[k - 1].quantity) else -Counted(os[k - 1].quantity)
  }

  ghost function Fate(r: Rules, start: int, os: seq<Order>, k: nat): Outcome
    requires k < |os|
    decreases k, 1
  {
    if !IsFirstOfId(os, k) then Refused(DuplicateId)
    else if os[k].quantity == 0 then Refused(ZeroQuantity)
    else if r.selfTradePrevention && SelfTrades(os, k) then Refused(SelfTrade)
    else
      match Check(r.limits, r.ordersInPeriod, os[k], PositionAt(r, start, os, k))
      case Passed => Accepted
      case Rejected(reason) => Refused(RiskCheck(reason))
  }

  // ---------------------------------------------------------------------
  // The progress of the loop
  // ---------------------------------------------------------------------

  /** What the loop carries when it comes to order `k`, in terms of the batch. */
  ghost predicate Knows(r: Rules, start: int, os: seq<Order>, k: nat, p: Progress)
    requires k <= |os|
  {
    && (forall id :: id in p.seen <==> exists j :: 0 <= j < k && os[j].id == id)
    && p.position == PositionAt(r, start, os, k)
    && (r.selfTradePrevention ==> BestOf(os, k, Bid, p.bestBid) && BestOf(os, k, Ask, p.bestAsk))
  }

  /** `best` is the best price of side `s` among the first `k` orders that got as far
      as the risk check. */
  ghost predicate BestOf(os: seq<Order>, k: nat, s: Side, best: Option<I64>)
    requires k <= |os|
  {
    && (best.Some? ==> exists j :: 0 <= j < k && os[j].side == s && ReachesRisk(os, j) && os[j].price == best.value)
    && (forall j :: 0 <= j < k && os[j].side == s && ReachesRisk(os, j) ==>
          best.Some? && if s == Bid then os[j].price <= best.value else os[j].price >= best.value)
  }

  lemma StartKnows(r: Rules, start: int, os: seq<Order>)
    ensures Knows(r, start, os, 0, Start(start))
  {}

  /** An order meets the best opposite price exactly if it meets some earlier order. */
  lemma CrossesMeansMeets(os: seq<Order>, k: nat, p: Progress)
    requires k < |os| && BestOf(os, k, Bid, p.bestBid) && BestOf(os, k, Ask, p.bestAsk)
    ensures Crosses(p, os[k]) <==> SelfTrades(os, k)
  {
    hide ReachesRisk;
    if Crosses(p, os[k]) {
      if os[k].side == Bid {
        var j :| 0 <= j < k && os[j].side == Ask && ReachesRisk(os, j) && os[j].price == p.bestAsk.value;
        assert Meet(os, j, k);
      } else {
        var j :| 0 <= j < k && os[j].side == Bid && ReachesRisk(os, j) && os[j].price == p.bestBid.value;
        assert Meet(os, j, k);
      }
    }
  }

  lemma {:induction false} JudgedByFate(r: Rules, start: int, os: seq<Order>, k: nat, p: Progress)
    requires k < |os| && Knows(r, start, os, k, p)
    ensures Judge(r, p, os[k]) == Fate(r, start, os, k)
  {
    hide ReachesRisk, BestOf, SelfTrades, Crosses, Check;
    assert os[k].id in p.seen <==> !IsFirstOfId(os, k);
    if r.selfTradePrevention { CrossesMeansMeets(os, k, p); }
  }

  lemma {:induction false} BestMoves(os: seq<Order>, k: nat, p: Progress, s: Side)
    requires k < |os| && BestOf(os, k, Bid, p.bestBid) && BestOf(os, k, Ask, p.bestAsk)
    ensures var q := if ReachesRisk(os, k) then Track(p, os[k]) else p;
      BestOf(os, k + 1, s, if s == Bid then q.bestBid else q.bestAsk)
  {
    hide ReachesRisk;
    var was := if s == Bid then p.bestBid else p.bestAsk;
    if ReachesRisk(os, k) && os[k].side == s {
      var q := Track(p, os[k]);
      var now := if s == Bid then q.bestBid else q.bestAsk;
      if now.value != os[k].price {
        var j :| 0 <= j < k && os[j].side == s && ReachesRisk(os, j) && os[j].price == was.value;
        assert j < k + 1;
      }
    } else if was.Some? {
      var j :| 0 <= j < k && os[j].side == s && ReachesRisk(os, j) && os[j].price == was.value;
      assert j < k + 1;
    }
  }

  lemma {:induction false} ReachesRiskMeans(os: seq<Order>, k: nat)
    requires k < |os|
    ensures ReachesRisk(os, k) <==> IsFirstOfId(os, k) && os[k].quantity > 0 && !SelfTrades(os, k)
  {}

  lemma NextKnows(r: Rules, start: int, os: seq<Order>, k: nat, p: Progress)
    requires k < |os| && Knows(r, start, os, k, p)
    ensures Knows(r, start, os, k + 1, Next(r, p, os[k]))
  {
    hide ReachesRisk, BestOf, SelfTrades, Crosses, Track, Check, CastI64;
    CastCounts(os[k].quantity);
    JudgedByFate(r, start, os, k, p);
    ReachesRiskMeans(os, k);
    assert os[k].id in p.seen <==> !IsFirstOfId(os, k);
    SeenMoves(os, k, p.seen);
    TrackKeeps(p, os[k]);
    if r.selfTradePrevention {
      CrossesMeansMeets(os, k, p);
      BestMoves(os, k, p, Bid);
      BestMoves(os, k, p, Ask);
    }
  }

  lemma TrackKeeps(p: Progress, o: Order)
    ensures Track(p, o).seen == p.seen && Track(p, o).position == p.position
    ensures forall ids :: Track(p.(seen := ids), o) == Track(p, o).(seen := ids)
  {}

  lemma CastCounts(n: U64)
    ensures CastI64(n) == Counted(n)
  {}

  lemma SeenMoves(os: seq<Order>, k: nat, seen: set<OrderId>)
    requires k < |os| && forall id :: id in seen <==> exists j :: 0 <= j < k && os[j].id == id
    ensures forall id :: id in seen + {os[k].id} <==> exists j :: 0 <= j < k + 1 && os[j].id == id
  {
    forall id ensures id in seen + {os[k].id} <==> exists j :: 0 <= j < k + 1 && os[j].id == id {
      if id in seen {
        var j :| 0 <= j < k && os[j].id == id;
        assert j < k + 1;
      } else if id == os[k].id {
        assert k < k + 1;
      }
    }
  }

  // ---------------------------------------------------------------------
  // The results of validation
  // ---------------------------------------------------------------------

  /** The ids accepted from place `k` on. */
  ghost function AcceptedFrom(r: Rules, start: int, os: seq<Order>, k: nat): seq<OrderId>
    requires k <= |os|
    decreases |os| - k
  {
    if k == |os| then []
    else (if Fate(r, start, os, k).Accepted? then [os[k].id] else []) + AcceptedFrom(r, start, os, k + 1)
  }

  /** The ids refused from place `k` on, each with its reason. */
  ghost function RefusedFrom(r: Rules, start: int, os: seq<Order>, k: nat): seq<(OrderId, BulkRejectReason)>
    requires k <= |os|
    decreases |os| - k
  {
    if k == |os| then []
    else
      (match Fate(r, start, os, k) case Accepted => [] case Refused(reason) => [(os[k].id, reason)])
      + RefusedFrom(r, start, os, k + 1)
  }

  lemma {:induction false} ListsFrom(r: Rules, start: int, os: seq<Order>, k: nat, p: Progress)
    requires k <= |os| && Knows(r, start, os, k, p)
    ensures IdList(AcceptedOrders(r, p, os[k..])) == AcceptedFrom(r, start, os, k)
    ensures Refusals(r, p, os[k..]) == RefusedFrom(r, start, os, k)
    decreases |os| - k
  {
    hide Knows, Judge, Next, Fate;
    var rest := os[k..];
    if k < |os| {
      JudgedByFate(r, start, os, k, p);
      NextKnows(r, start, os, k, p);
      ListsFrom(r, start, os, k + 1, Next(r, p, os[k]));
      assert rest[0] == os[k] && rest[1..] == os[k + 1..];
      var acc := AcceptedOrders(r, Next(r, p, os[k]), os[k + 1..]);
      assert ([os[k]] + acc)[1..] == acc;
    }
  }

  /** Validation lists each order by its fate, in input order. */
  lemma {:induction false} ValidationListsFates(r: Rules, start: int, os: seq<Order>)
    ensures IdList(AcceptedOrders(r, Start(start), os)) == AcceptedFrom(r, start, os, 0)
    ensures Refusals(r, Start(start), os) == RefusedFrom(r, start, os, 0)
  {
    StartKnows(r, start, os);
    assert os[0..] == os;
    ListsFrom(r, start, os, 0, Start(start));
  }

  lemma {:induction false} ListedFrom(
    r: Rules, start: int, os: seq<Order>, k: nat, id: OrderId, reason: BulkRejectReason)
    requires k <= |os|
    ensures (id, reason) in RefusedFrom(r, start, os, k) <==>
            exists j :: k <= j < |os| && os[j].id == id && Fate(r, start, os, j) == Refused(reason)
    ensures id in AcceptedFrom(r, start, os, k) <==>
            exists j :: k <= j < |os| && os[j].id == id && Fate(r, start, os, j) == Accepted
    decreases |os| - k
  {
    hide Fate;
    if k < |os| {
      ListedFrom(r, start, os, k + 1, id, reason);
    }
  }

  /** Which orders are refused before the risk check, and only those: a repeated id, a
      new id with no quantity, or, with self-trade prevention on, a new id with a
      quantity that meets an earlier order that got as far as the risk check. */
  lemma {:induction false} RefusedExactlyWhen(r: Rules, start: int, os: seq<Order>, id: OrderId)
    ensures var refused := Refusals(r, Start(start), os);
      && ((id, DuplicateId) in refused <==>
            exists k :: 0 <= k < |os| && os[k].id == id && !IsFirstOfId(os, k))
      && ((id, ZeroQuantity) in refused <==>
            exists k :: 0 <= k < |os| && os[k].id == id && IsFirstOfId(os, k) && os[k].quantity == 0)
      && ((id, SelfTrade) in refused <==>
            && r.selfTradePrevention
            && exists k :: && 0 <= k < |os| && os[k].id == id && IsFirstOfId(os, k) && os[k].quantity > 0
                           && SelfTrades(os, k))
  {
    hide ReachesRisk, SelfTrades, IsFirstOfId, Refusals, RefusedFrom, AcceptedFrom;
    ValidationListsFates(r, start, os);
    ListedFrom(r, start, os, 0, id, DuplicateId);
    ListedFrom(r, start, os, 0, id, ZeroQuantity);
    ListedFrom(r, start, os, 0, id, SelfTrade);
  }

  /** Every other order is accepted or refused by the risk check at the position that
      the orders accepted before it have led to. */
  lemma {:induction false} AcceptedExactlyWhen(
    r: Rules, start: int, os: seq<Order>, id: OrderId, reason: RiskRejectReason)
    ensures id in IdList(AcceptedOrders(r, Start(start), os)) <==>
            exists k :: && 0 <= k < |os| && os[k].id == id && IsFirstOfId(os, k) && os[k].quantity > 0
                        && !(r.selfTradePrevention && SelfTrades(os, k))
                        && Check(r.limits, r.ordersInPeriod, os[k], PositionAt(r, start, os, k)) == Passed
    ensures (id, RiskCheck(reason)) in Refusals(r, Start(start), os) <==>
            exists k :: && 0 <= k < |os| && os[k].id == id && IsFirstOfId(os, k) && os[k].quantity > 0
                        && !(r.selfTradePrevention && SelfTrades(os, k))
                        && Check(r.limits, r.ordersInPeriod, os[k], PositionAt(r, start, os, k)) == Rejected(reason)
  {
    hide ReachesRisk, SelfTrades, IsFirstOfId, Refusals, RefusedFrom, AcceptedFrom, Check, PositionAt, AcceptedOrders;
    ValidationListsFates(r, start, os);
    ListedFrom(r, start, os, 0, id, RiskCheck(reason));
  }

  /** An ask and then a lower bid: both are accepted, although prevention is on. */
  lemma {:induction false} SeparatePricesPass(r: Rules, ask: Order, bid: Order)
    requires r.selfTradePrevention && !r.limits.enabled
    requires ask.side == Ask && bid.side == Bid && bid.price < ask.price && ask.id != bid.id
    requires ask.quantity > 0 && bid.quantity > 0
    ensures var accepted := IdList(AcceptedOrders(r, Start(0), [ask, bid]));
      ask.id in accepted && bid.id in accepted
  {
    var os := [ask, bid];
    AcceptedExactlyWhen(r, 0, os, ask.id, MinOrderSizeNotMet(0, 0));
    AcceptedExactlyWhen(r, 0, os, bid.id, MinOrderSizeNotMet(0, 0));
    hide AcceptedOrders, IdList, ReachesRisk, PositionAt;
    assert os[0] == ask && os[1] == bid;
    assert IsFirstOfId(os, 0) && IsFirstOfId(os, 1) && !SelfTrades(os, 0) && !SelfTrades(os, 1);
  }
}
