/** The post-only verdict against what insertion does (src/post_only.rs). */
module PostOnlyRules {
  import opened Orders
  import opened NaiveBook
  import opened QueueLemmas
  import opened MatchingTheorems

  datatype PostOnlyResult = WouldRest | WouldMatch | InvalidOrderType

  /** The decision, which looks only at the best prices. */
  function Verdict(o: Order, bestBid: Option<I64>, bestAsk: Option<I64>): PostOnlyResult {
    if o.orderType.Market? then InvalidOrderType
    else match o.side
      case Bid => if bestAsk.Some? && o.price >= bestAsk.value then WouldMatch else WouldRest
      case Ask => if bestBid.Some? && o.price <= bestBid.value then WouldMatch else WouldRest
  }

  function BookVerdict(b: Book, o: Order): PostOnlyResult {
    Verdict(o, BestPrice(b.bids), BestPrice(b.asks))
  }

  /** Exactly when an order with a WouldMatch verdict trades: it must be unfilled
      and unexpired, and a fill-or-kill order must find enough within its limit. An
      order with any other non-market verdict never trades. */
  lemma {:induction false} VerdictIsExact(b: Book, o: Order, now: U64)
    requires Inv(b) && Admissible(b, o) && !o.orderType.Market?
    ensures Insert(b, o, now).fills != [] <==>
            && BookVerdict(b, o) == WouldMatch
            && !o.IsFilled() && !ExpiredOnEntry(o, now)
            && (o.timeInForce.FOK? ==> Crossing(Makers(b, o), o) >= o.Remaining())
  {
    var q := Makers(b, o);
    if !o.IsFilled() && q != [] && Reaches(o, q[0].price) && !Killed(q, o) {
      SweepTradesTheMinimum(o.side.Opposite(), q, o);
      assert Traded([]) == 0;
    }
  }

  /** One ask rests, and a fill-or-kill bid at or above its price wants more. */
  lemma FillOrKillBeyondDepth(m: Order, o: Order)
    requires m.side == Ask && m.Rests() && m.filledQuantity < m.quantity
    requires o.side == Bid && o.timeInForce.FOK? && o.orderType.Limit? && o.id != m.id && o.price >= m.price
    requires o.filledQuantity <= o.quantity && o.Remaining() > m.Remaining()
    ensures var b := Book([], [m]);
      && Inv(b) && Admissible(b, o) && !o.IsFilled()
      && BookVerdict(b, o) == WouldMatch && Insert(b, o, 0).fills == []
  {
    SingletonOk(Ask, m);
    CrossingSingleton(m, o);
  }

  /** The verdict alone does not decide a fill-or-kill order: one lot rests at the
      limit, two are wanted, the verdict is WouldMatch and nothing trades. */
  lemma VerdictMissesFillOrKill() returns (b: Book, o: Order)
    ensures Inv(b) && Admissible(b, o) && !o.IsFilled() && !o.orderType.Market?
    ensures BookVerdict(b, o) == WouldMatch && Insert(b, o, 0).fills == []
  {
    hide Inv, Admissible, Insert, BookVerdict;
    var m := Order(1, Ask, Limit, 100, 1, 0, 0, GTC);
    o := Order(2, Bid, Limit, 100, 2, 0, 0, FOK);
    b := Book([], [m]);
    FillOrKillBeyondDepth(m, o);
  }

  lemma {:induction false} CrossingSingleton(m: Order, t: Order)
    requires m.filledQuantity < m.quantity
    ensures Crossing([m], t) == if Reaches(t, m.price) then m.Remaining() else 0
  {
    assert [m][1..] == [];
  }

  /** A passive order rests untouched, and cancelling it gives the old book back. */
  lemma {:induction false} PassiveInsertThenCancel(b: Book, o: Order, now: U64)
    requires Inv(b) && Admissible(b, o) && o.Rests() && !o.IsFilled() && !ExpiredOnEntry(o, now)
    requires BookVerdict(b, o) == WouldRest
    ensures var r := Insert(b, o, now);
      && r.fills == []
      && r.book == b.With(o.side, Enqueue(b.Queue(o.side), o))
      && Cancelled(r.book, o.id) == Some(o)
      && Cancel(r.book, o.id) == b
  {
    hide Enqueue, Find, Remove, Ids, Liquidity, Sweep, Crossing, Distinct, Sorted, Resting;
    MatchesNothing(Makers(b, o), o);
    EnqueueRemove(b.Queue(o.side), o);
    EnqueueOk(o.side, b.Queue(o.side), o);
    RemoveAbsent(Makers(b, o), o.id);
  }

  /** What a WouldRest verdict promises: the order does not trade, and it is on its
      side afterwards exactly if it is of a kind that rests, unfilled and unexpired.
      Any other order leaves the book as it was. */
  lemma {:induction false} RestsExactlyWhen(b: Book, o: Order, now: U64)
    requires Inv(b) && Admissible(b, o) && BookVerdict(b, o) == WouldRest
    ensures var r := Insert(b, o, now); var rests := o.Rests() && !o.IsFilled() && !ExpiredOnEntry(o, now);
      && r.fills == []
      && (o in r.book.Queue(o.side) <==> rests)
      && (!rests ==> r.book == b)
  {
    hide Enqueue, Find, Remove, Ids, Liquidity, Sweep, Crossing, Distinct, Sorted, Resting;
    MatchesNothing(Makers(b, o), o);
    var own := b.Queue(o.side);
    if o in own { IdsMembers(own, o.id); }
    var k := Place(own, o);
    assert o in own[..k] + [o] + own[k..];
  }

  /** Nothing reaches an empty book, and an immediate order does not stay in it. */
  lemma ImmediateOnEmpty(o: Order)
    requires o.orderType.Limit? && o.timeInForce.IOC?
    ensures Inv(EMPTY) && Admissible(EMPTY, o)
    ensures BookVerdict(EMPTY, o) == WouldRest && Insert(EMPTY, o, 0) == Inserted(EMPTY, [])
  {}

  /** An immediate-or-cancel bid on an empty book is judged to rest, and does not. */
  lemma VerdictMissesImmediateOrCancel() returns (o: Order)
    ensures Inv(EMPTY) && Admissible(EMPTY, o) && !o.IsFilled()
    ensures BookVerdict(EMPTY, o) == WouldRest && Insert(EMPTY, o, 0) == Inserted(EMPTY, [])
  {
    hide Inv, Admissible, Insert, BookVerdict;
    o := Order(1, Bid, Limit, 100, 1, 0, 0, IOC);
    ImmediateOnEmpty(o);
  }
}
