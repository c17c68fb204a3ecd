/** Pre-trade risk limits (src/risk.rs). */
module Risk {
  import opened Orders
  import opened Accounting
  import opened Positions

  datatype RiskRejectReason =
    | MaxOrderSizeExceeded(requested: U64, limit: U64)
    | MaxNotionalExceeded(notional: int, notionalLimit: int)
    | PositionLimitExceeded(projected: int, positionLimit: U64)
    | OrderRateLimitExceeded(count: nat, rateLimit: U64)
    | MinOrderSizeNotMet(quantity: U64, minimum: U64)

  datatype RiskCheckResult = Passed | Rejected(reason: RiskRejectReason)

  datatype RiskLimits = RiskLimits(
    maxOrderSize: U64,
    minOrderSize: U64,
    maxNotional: int,
    maxPosition: U64,
    maxOrdersPerPeriod: U64,
    enabled: bool
  )

  /** The position an order leads to if it trades in full; the quantity is cast to i64. */
  function Projected(order: Order, position: int): int {
    if order.side.Bid? then position + CastI64(order.quantity) else position - CastI64(order.quantity)
  }

  /** The size checks, which come before any i64 arithmetic. */
  predicate SizeOk(limits: RiskLimits, order: Order) {
    && limits.minOrderSize <= order.quantity <= limits.maxOrderSize
    && Abs(order.price * order.quantity) <= limits.maxNotional
  }

  /** The i64 addition of the position check does not overflow, if it is reached. */
  predicate CheckInRange(limits: RiskLimits, order: Order, position: int) {
    limits.enabled && SizeOk(limits, order) ==> FitsI64(Projected(order, position))
  }

  function Check(limits: RiskLimits, ordersInPeriod: nat, order: Order, position: int): RiskCheckResult {
    if !limits.enabled then Passed
    else if order.quantity < limits.minOrderSize then Rejected(MinOrderSizeNotMet(order.quantity, limits.minOrderSize))
    else if order.quantity > limits.maxOrderSize
    then Rejected(MaxOrderSizeExceeded(order.quantity, limits.maxOrderSize))
    else
      var notional := order.price * order.quantity;
      if Abs(notional) > limits.maxNotional then Rejected(MaxNotionalExceeded(notional, limits.maxNotional))
      else
        var projected := Projected(order, position);
        if Abs(projected) > limits.maxPosition then Rejected(PositionLimitExceeded(projected, limits.maxPosition))
        else if ordersInPeriod >= limits.maxOrdersPerPeriod
        then Rejected(OrderRateLimitExceeded(ordersInPeriod, limits.maxOrdersPerPeriod))
        else Passed
  }

  /** With limits enabled an order passes exactly when every limit holds. */
  lemma PassesIffWithinLimits(limits: RiskLimits, count: nat, order: Order, position: int)
    requires limits.enabled
    ensures Check(limits, count, order, position).Passed? <==>
            && SizeOk(limits, order)
            && Abs(Projected(order, position)) <= limits.maxPosition
            && count < limits.maxOrdersPerPeriod
  {}

  /** Which limit is reported when several are broken, and with which numbers: the size
      limits first, then the notional, the position and the rate. The quantity counts
      toward the position as its low 64 bits. */
  lemma CheckOutcome(limits: RiskLimits, count: nat, o: Order, position: int)
    ensures var r := Check(limits, count, o, position);
      var lots := if o.quantity <= I64_MAX then o.quantity else o.quantity - 0x1_0000_0000_0000_0000;
      var projected := if o.side == Bid then position + lots else position - lots;
      var fits := projected <= limits.maxPosition && -projected <= limits.maxPosition;
      var notional := o.price * o.quantity;
      var small := notional <= limits.maxNotional && -notional <= limits.maxNotional;
      var sized := limits.minOrderSize <= o.quantity <= limits.maxOrderSize;
      && (r == Passed <==> !limits.enabled || (sized && small && fits && count < limits.maxOrdersPerPeriod))
      && (limits.enabled && o.quantity < limits.minOrderSize ==>
            r == Rejected(MinOrderSizeNotMet(o.quantity, limits.minOrderSize)))
      && (limits.enabled && limits.minOrderSize <= o.quantity && limits.maxOrderSize < o.quantity ==>
            r == Rejected(MaxOrderSizeExceeded(o.quantity, limits.maxOrderSize)))
      && (limits.enabled && sized && !small ==> r == Rejected(MaxNotionalExceeded(notional, limits.maxNotional)))
      && (limits.enabled && sized && small && !fits ==>
            r == Rejected(PositionLimitExceeded(projected, limits.maxPosition)))
      && (limits.enabled && sized && small && fits && count >= limits.maxOrdersPerPeriod ==>
            r == Rejected(OrderRateLimitExceeded(count, limits.maxOrdersPerPeriod)))
  {}

  class RiskManager {
    var limits: RiskLimits
    var ordersInPeriod: U64

    constructor (limits: RiskLimits)
      ensures this.limits == limits && ordersInPeriod == 0
    {
      this.limits := limits;
      ordersInPeriod := 0;
    }

    function CheckOrder(order: Order, position: I64): RiskCheckResult
      requires CheckInRange(limits, order, position)
      reads this
    {
      Check(limits, ordersInPeriod, order, position)
    }

    method RecordOrder()
      requires ordersInPeriod < U64_MAX
      modifies `ordersInPeriod
      ensures ordersInPeriod == old(ordersInPeriod) + 1
    {
      ordersInPeriod := ordersInPeriod + 1;
    }

    method ResetPeriod()
      modifies `ordersInPeriod
      ensures ordersInPeriod == 0
    {
      ordersInPeriod := 0;
    }
  }

  // ---------------------------------------------------------------------
  // Runs of checks, records and resets
  // ---------------------------------------------------------------------

  /** One step of a client: it checks an order and records it if it passed, or it
      starts a new period. */
  datatype Step = Submit(order: Order, position: I64) | NewPeriod

  /** The count after a run that starts at `n`. */
  function Recorded(limits: RiskLimits, n: nat, steps: seq<Step>): nat
    decreases |steps|, 0
  {
    if steps == [] then n
    else if steps[|steps| - 1].NewPeriod? then 0
    else Recorded(limits, n, steps[..|steps| - 1]) + if PassesAt(limits, n, steps, |steps| - 1) then 1 else 0
  }

  /** Step `k` of the run submits an order that passes. */
  predicate PassesAt(limits: RiskLimits, n: nat, steps: seq<Step>, k: nat)
    requires k < |steps|
    decreases k, 1
  {
    steps[k].Submit? && Check(limits, Recorded(limits, n, steps[..k]), steps[k].order, steps[k].position).Passed?
  }

  /** How many of the steps from `i` up to `j` submit an order that passes. */
  function Passes(limits: RiskLimits, n: nat, steps: seq<Step>, i: nat, j: nat): nat
    requires i <= j <= |steps|
  {
    if i == j then 0 else Passes(limits, n, steps, i, j - 1) + if PassesAt(limits, n, steps, j - 1) then 1 else 0
  }

  /** Steps `i` up to `j` lie in one period. */
  predicate OnePeriod(steps: seq<Step>, i: nat, j: nat) {
    i <= j <= |steps| && forall k :: i <= k < j ==> steps[k].Submit?
  }

  lemma {:induction false} RecordedAreThePasses(limits: RiskLimits, n: nat, steps: seq<Step>, i: nat, j: nat)
    requires OnePeriod(steps, i, j)
    ensures Recorded(limits, n, steps[..j]) == Recorded(limits, n, steps[..i]) + Passes(limits, n, steps, i, j)
    decreases j
  {
    if i < j {
      RecordedAreThePasses(limits, n, steps, i, j - 1);
      assert steps[..j][..j - 1] == steps[..j - 1];
    }
  }

  /** A client that records every order that passes has no more orders pass within one
      period than the rate limit allows, whatever part of the period one looks at. */
  lemma {:induction false} RateLimitPerPeriod(limits: RiskLimits, n: nat, steps: seq<Step>, i: nat, j: nat)
    requires limits.enabled && OnePeriod(steps, i, j)
    ensures Passes(limits, n, steps, i, j) <= limits.maxOrdersPerPeriod
    decreases j
  {
    if i < j {
      RateLimitPerPeriod(limits, n, steps, i, j - 1);
      RecordedAreThePasses(limits, n, steps, i, j - 1);
    }
  }

  /** An order passes exactly when it is within the other limits and the rate limit is
      not used up by what was counted when its period began at `i` and what has passed
      since. */
  lemma {:induction false} PassesWhileRateLasts(limits: RiskLimits, n: nat, steps: seq<Step>, i: nat, k: nat)
    requires limits.enabled && OnePeriod(steps, i, k) && k < |steps| && steps[k].Submit?
    requires i == 0 || steps[i - 1].NewPeriod?
    ensures PassesAt(limits, n, steps, k) <==>
            && SizeOk(limits, steps[k].order)
            && Abs(Projected(steps[k].order, steps[k].position)) <= limits.maxPosition
            && (if i == 0 then n else 0) + Passes(limits, n, steps, i, k) < limits.maxOrdersPerPeriod
  {
    RecordedAreThePasses(limits, n, steps, i, k);
    PassesIffWithinLimits(limits, Recorded(limits, n, steps[..k]), steps[k].order, steps[k].position);
  }

  /** The manager in use: it answers every run of steps as above, from whatever count
      it starts at. With limits disabled nothing stops the count, so it must have room. */
  method RunSteps(manager: RiskManager, steps: seq<Step>) returns (passed: seq<bool>)
    requires !manager.limits.enabled ==> manager.ordersInPeriod + |steps| <= U64_MAX
    requires forall k :: 0 <= k < |steps| && steps[k].Submit? ==>
               CheckInRange(manager.limits, steps[k].order, steps[k].position)
    modifies manager`ordersInPeriod
    ensures |passed| == |steps|
    ensures forall k :: 0 <= k < |steps| ==>
              passed[k] == PassesAt(manager.limits, old(manager.ordersInPeriod), steps, k)
    ensures manager.ordersInPeriod == Recorded(manager.limits, old(manager.ordersInPeriod), steps)
  {
    hide Check, CheckInRange;
    ghost var n := manager.ordersInPeriod;
    passed := [];
    var i := 0;
    while i < |steps|
      invariant 0 <= i <= |steps| && |passed| == i
      invariant forall k :: 0 <= k < i ==> passed[k] == PassesAt(manager.limits, n, steps, k)
      invariant manager.ordersInPeriod == Recorded(manager.limits, n, steps[..i])
      invariant !manager.limits.enabled ==> manager.ordersInPeriod + (|steps| - i) <= U64_MAX
    {
      ghost var next := steps[..i + 1];
      assert next[..|next| - 1] == steps[..i] && next[|next| - 1] == steps[i];
      match steps[i] {
        case Submit(order, position) =>
          var result := manager.CheckOrder(order, position);
          if result.Passed? {
            if manager.limits.enabled {
              PassesIffWithinLimits(manager.limits, manager.ordersInPeriod, order, position);
            }
            manager.RecordOrder();
          }
          passed := passed + [result.Passed?];
        case NewPeriod =>
          manager.ResetPeriod();
          passed := passed + [false];
      }
      i := i + 1;
    }
    assert steps[..i] == steps;
  }
}
