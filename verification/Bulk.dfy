/** Batch validation (src/bulk.rs): duplicate ids, empty orders, self-trades within
    the batch, and risk limits on the running position. */
module Bulk {
  import opened Orders
  import opened NaiveBook
  import opened Positions
  import opened Risk

  datatype BulkRejectReason = RiskCheck(reason: RiskRejectReason) | DuplicateId | ZeroQuantity | SelfTrade

  /** What the loop carries from order to order. */
  datatype Progress = Progress(seen: set<OrderId>, bestBid: Option<I64>, bestAsk: Option<I64>, position: int)

  /** The fate of one order. */
  datatype Outcome = Accepted | Refused(reason: BulkRejectReason)

  datatype Rules = Rules(selfTradePrevention: bool, limits: RiskLimits, ordersInPeriod: U64)

  function Start(position: int): Progress {
    Progress({}, None, None, position)
  }

  /** The order is priced at or through the best opposite price of the batch so far. */
  predicate Crosses(p: Progress, o: Order) {
    match o.side
    case Bid => p.bestAsk.Some? && o.price >= p.bestAsk.value
    case Ask => p.bestBid.Some? && o.price <= p.bestBid.value
  }

  /** The best prices after an order that does not cross, accepted or not. */
  function Track(p: Progress, o: Order): Progress {
    match o.side
    case Bid => p.(bestBid := Some(if p.bestBid.Some? && p.bestBid.value > o.price then p.bestBid.value else o.price))
    case Ask => p.(bestAsk := Some(if p.bestAsk.Some? && p.bestAsk.value < o.price then p.bestAsk.value else o.price))
  }

  function Judge(r: Rules, p: Progress, o: Order): Outcome {
    if o.id in p.seen then Refused(DuplicateId)
    else if o.quantity == 0 then Refused(ZeroQuantity)
    else if r.selfTradePrevention && Crosses(p, o) then Refused(SelfTrade)
    else
      var c := Check(r.limits, r.ordersInPeriod, o, p.position);
      if c.Passed? then Accepted else Refused(RiskCheck(c.reason))
  }

  function Next(r: Rules, p: Progress, o: Order): Progress {
    if o.id in p.seen then p
    else
      var p1 := p.(seen := p.seen + {o.id});
      if o.quantity == 0 || (r.selfTradePrevention && Crosses(p, o)) then p1
      else
        var p2 := if r.selfTradePrevention then Track(p1, o) else p1;
        if Judge(r, p, o).Accepted? then p2.(position := Projected(o, p.position)) else p2
  }

  /** No i64 operation overflows while validating. */
  predicate RunInRange(r: Rules, p: Progress, os: seq<Order>)
    decreases |os|
  {
    os == [] ||
    (&& CheckInRange(r.limits, os[0], p.position)
     && FitsI64(Next(r, p, os[0]).position)
     && RunInRange(r, Next(r, p, os[0]), os[1..]))
  }

  function AcceptedOrders(r: Rules, p: Progress, os: seq<Order>): seq<Order>
    decreases |os|
  {
    if os == [] then []
    else
      var rest := AcceptedOrders(r, Next(r, p, os[0]), os[1..]);
      if Judge(r, p, os[0]).Accepted? then [os[0]] + rest else rest
  }

  /** The refused orders with their reasons. */
  function Refusals(r: Rules, p: Progress, os: seq<Order>): seq<(OrderId, BulkRejectReason)>
    decreases |os|
  {
    if os == [] then []
    else
      var rest := Refusals(r, Next(r, p, os[0]), os[1..]);
      match Judge(r, p, os[0]) case Accepted => rest case Refused(reason) => [(os[0].id, reason)] + rest
  }

  /** The progress after the first `k` orders. */
  function After(r: Rules, p: Progress, os: seq<Order>, k: nat): Progress
    requires k <= |os|
    decreases k
  {
    if k == 0 then p else After(r, Next(r, p, os[0]), os[1..], k - 1)
  }

  class BulkValidator {
    const selfTradePrevention: bool
    const maxBatchSize: nat

    constructor (selfTradePrevention: bool, maxBatchSize: nat)
      ensures this.selfTradePrevention == selfTradePrevention && this.maxBatchSize == maxBatchSize
    {
      this.selfTradePrevention := selfTradePrevention;
      this.maxBatchSize := maxBatchSize;
    }

    /** Accepted ids and refusals are each in input order, one entry per order. */
    method Validate(orders: seq<Order>, riskManager: RiskManager, currentPosition: I64)
      returns (accepted: seq<OrderId>, rejected: seq<(OrderId, BulkRejectReason)>)
      requires var r := Rules(selfTradePrevention, riskManager.limits, riskManager.ordersInPeriod);
        RunInRange(r, Start(currentPosition), orders)
      ensures var r := Rules(selfTradePrevention, riskManager.limits, riskManager.ordersInPeriod);
        && accepted == IdList(AcceptedOrders(r, Start(currentPosition), orders))
        && rejected == Refusals(r, Start(currentPosition), orders)
    {
      ghost var r := Rules(selfTradePrevention, riskManager.limits, riskManager.ordersInPeriod);
      ghost var p := Start(currentPosition);
      accepted, rejected := [], [];
      var seenIds: set<OrderId> := {};
      var bestBid: Option<I64> := None;
      var bestAsk: Option<I64> := None;
      var cumulativePosition: I64 := currentPosition;
      var i := 0;
      assert orders[0..] == orders;
      while i < |orders|
        invariant 0 <= i <= |orders|
        invariant p == Progress(seenIds, bestBid, bestAsk, cumulativePosition)
        invariant RunInRange(r, p, orders[i..])
        invariant accepted + IdList(AcceptedOrders(r, p, orders[i..])) ==
                  IdList(AcceptedOrders(r, Start(currentPosition), orders))
        invariant rejected + Refusals(r, p, orders[i..]) == Refusals(r, Start(currentPosition), orders)
      {
        var order := orders[i];
        assert orders[i..][1..] == orders[i + 1..];
        Unfold(r, p, orders[i..], accepted, rejected);
        p := Next(r, p, order);
        i := i + 1;
        if order.id in seenIds {
          rejected := rejected + [(order.id, DuplicateId)];
          continue;
        }
        seenIds := seenIds + {order.id};
        if order.quantity == 0 {
          rejected := rejected + [(order.id, ZeroQuantity)];
          continue;
        }
        if selfTradePrevention {
          match order.side {
            case Bid =>
              if bestAsk.Some? && order.price >= bestAsk.value {
                rejected := rejected + [(order.id, SelfTrade)];
                continue;
              }
              bestBid := Some(if bestBid.Some? && bestBid.value > order.price then bestBid.value else order.price);
            case Ask =>
              if bestBid.Some? && order.price <= bestBid.value {
                rejected := rejected + [(order.id, SelfTrade)];
                continue;
              }
              bestAsk := Some(if bestAsk.Some? && bestAsk.value < order.price then bestAsk.value else order.price);
          }
        }
        match riskManager.CheckOrder(order, cumulativePosition) {
          case Passed =>
            var delta: I64 := CastI64(order.quantity);
            match order.side {
              case Bid => cumulativePosition := cumulativePosition + delta;
              case Ask => cumulativePosition := cumulativePosition - delta;
            }
            accepted := accepted + [order.id];
          case Rejected(reason) =>
            rejected := rejected + [(order.id, RiskCheck(reason))];
        }
      }
    }
  }

  /** One turn of the loop, on the result lists. */
  lemma {:induction false} Unfold(
    r: Rules, p: Progress, os: seq<Order>, accepted: seq<OrderId>, rejected: seq<(OrderId, BulkRejectReason)>)
    requires os != []
    ensures var q := Next(r, p, os[0]); var rest := os[1..];
      match Judge(r, p, os[0])
      case Accepted =>
        && accepted + IdList(AcceptedOrders(r, p, os)) == accepted + [os[0].id] + IdList(AcceptedOrders(r, q, rest))
        && rejected + Refusals(r, p, os) == rejected + Refusals(r, q, rest)
      case Refused(reason) =>
        && accepted + IdList(AcceptedOrders(r, p, os)) == accepted + IdList(AcceptedOrders(r, q, rest))
        && rejected + Refusals(r, p, os) == rejected + [(os[0].id, reason)] + Refusals(r, q, rest)
  {
    var q, rest := Next(r, p, os[0]), os[1..];
    if Judge(r, p, os[0]).Accepted? {
      assert ([os[0]] + AcceptedOrders(r, q, rest))[1..] == AcceptedOrders(r, q, rest);
    }
  }
}
