/** The reference book: one flat list of resting orders per side, best price
    first and oldest first within a price. It has no levels, no cached totals and
    no index; `OrderBook` is proved to behave like it. */
module NaiveBook {
  import opened Orders

  datatype Book = Book(bids: seq<Order>, asks: seq<Order>) {
    function Queue(s: Side): seq<Order> {
      if s.Bid? then bids else asks
    }

    function With(s: Side, q: seq<Order>): Book {
      if s.Bid? then Book(q, asks) else Book(bids, q)
    }
  }

  const EMPTY := Book([], [])

  // ---------------------------------------------------------------------
  // Queues
  // ---------------------------------------------------------------------

  /** Price `p` has strictly higher priority than `q` among resting orders of side `s`. */
  predicate Better(s: Side, p: int, q: int) {
    if s.Bid? then p > q else p < q
  }

  predicate Live(q: seq<Order>) {
    forall i :: 0 <= i < |q| ==> q[i].filledQuantity < q[i].quantity
  }

  function Liquidity(q: seq<Order>): nat
    requires Live(q)
  {
    if q == [] then 0 else q[0].Remaining() + Liquidity(q[1..])
  }

  function Ids(q: seq<Order>): set<OrderId> {
    if q == [] then {} else {q[0].id} + Ids(q[1..])
  }

  predicate Distinct(q: seq<Order>) {
    q == [] || (q[0].id !in Ids(q[1..]) && Distinct(q[1..]))
  }

  /** Nothing has priority over the order in front of it. */
  predicate Sorted(s: Side, q: seq<Order>) {
    |q| <= 1 || (!Better(s, q[1].price, q[0].price) && Sorted(s, q[1..]))
  }

  predicate Resting(s: Side, q: seq<Order>) {
    q == [] || (q[0].side == s && q[0].Rests() && Resting(s, q[1..]))
  }

  /** What every queue of a reachable book satisfies on its own. */
  predicate QueueOk(s: Side, q: seq<Order>) {
    Live(q) && Sorted(s, q) && Distinct(q) && Resting(s, q) && Liquidity(q) <= U64_MAX
  }

  predicate Uncrossed(b: Book) {
    b.bids != [] && b.asks != [] ==> b.bids[0].price < b.asks[0].price
  }

  predicate Inv(b: Book) {
    && QueueOk(Bid, b.bids)
    && QueueOk(Ask, b.asks)
    && Ids(b.bids) !! Ids(b.asks)
    && Uncrossed(b)
  }

  function BestPrice(q: seq<Order>): Option<I64> {
    if q == [] then None else Some(q[0].price)
  }

  /** Place `o` behind every order of better or equal price. */
  function Enqueue(q: seq<Order>, o: Order): seq<Order> {
    if q == [] || Better(o.side, o.price, q[0].price) then [o] + q
    else [q[0]] + Enqueue(q[1..], o)
  }

  function Find(q: seq<Order>, id: OrderId): Option<Order> {
    if q == [] then None else if q[0].id == id then Some(q[0]) else Find(q[1..], id)
  }

  function Remove(q: seq<Order>, id: OrderId): seq<Order> {
    if q == [] then [] else if q[0].id == id then q[1..] else [q[0]] + Remove(q[1..], id)
  }

  // ---------------------------------------------------------------------
  // Matching
  // ---------------------------------------------------------------------

  /** The taker is willing to trade at price `p`. */
  predicate Reaches(t: Order, p: int) {
    t.orderType.Market? || (if t.side.Bid? then p <= t.price else p >= t.price)
  }

  datatype Swept = Swept(fills: seq<Fill>, rest: seq<Order>, taker: Order) {
    function After(fs: seq<Fill>): Swept {
      Swept(fs + fills, rest, taker)
    }
  }

  /** Trade `t` against the queue from the front until one side runs out. */
  function Sweep(q: seq<Order>, t: Order): Swept
    requires Live(q)
  {
    if q == [] || t.IsFilled() || !Reaches(t, q[0].price) then Swept([], q, t)
    else
      var n := Min(t.Remaining(), q[0].Remaining());
      var fill := Fill(q[0].id, t.id, q[0].price, n, t.timestampNs);
      if n == q[0].Remaining() then Sweep(q[1..], t.Execute(n)).After([fill])
      else Swept([fill], [q[0].Execute(n)] + q[1..], t.Execute(n))
  }

  /** Quantity resting at prices `t` is willing to trade at. */
  function Crossing(q: seq<Order>, t: Order): nat
    requires Live(q)
  {
    if q == [] then 0
    else (if Reaches(t, q[0].price) then q[0].Remaining() else 0) + Crossing(q[1..], t)
  }

  predicate Killed(q: seq<Order>, t: Order)
    requires Live(q)
    requires t.timeInForce.FOK? ==> t.filledQuantity <= t.quantity
  {
    t.timeInForce.FOK? && Crossing(q, t) < t.Remaining()
  }

  function Match(q: seq<Order>, t: Order): Swept
    requires Live(q)
    requires t.timeInForce.FOK? ==> t.filledQuantity <= t.quantity
  {
    if Killed(q, t) then Swept([], q, t) else Sweep(q, t)
  }

  // ---------------------------------------------------------------------
  // Book operations
  // ---------------------------------------------------------------------

  predicate ExpiredOnEntry(o: Order, now: U64) {
    o.timeInForce.GTD? && now > 0 && o.timeInForce.expiryNs <= now
  }

  /** What the source asks of a submitted order: its id is not resting, a
      fill-or-kill order is not overfilled, and what matching leaves of an order that
      may rest does not push its side's total past u64. */
  predicate Admissible(b: Book, o: Order)
    requires Inv(b)
  {
    && o.id !in Ids(b.bids) + Ids(b.asks)
    && (o.timeInForce.FOK? ==> o.filledQuantity <= o.quantity)
    && var t := Match(b.Queue(o.side.Opposite()), o).taker;
       o.Rests() && !t.IsFilled() ==> Liquidity(b.Queue(o.side)) + t.Remaining() <= U64_MAX
  }

  datatype Inserted = Inserted(book: Book, fills: seq<Fill>)

  /** The book after `o` matched with outcome `m`: its remainder rests or is dropped. */
  function Settle(b: Book, o: Order, m: Swept): Book {
    var b1 := b.With(o.side.Opposite(), m.rest);
    if m.taker.IsFilled() || !o.Rests() then b1
    else b1.With(o.side, Enqueue(b1.Queue(o.side), m.taker))
  }

  function Insert(b: Book, o: Order, now: U64): Inserted
    requires Inv(b) && Admissible(b, o)
  {
    if ExpiredOnEntry(o, now) then Inserted(b, [])
    else
      var m := Match(b.Queue(o.side.Opposite()), o);
      Inserted(Settle(b, o, m), m.fills)
  }

  function Cancelled(b: Book, id: OrderId): Option<Order> {
    if id in Ids(b.bids) then Find(b.bids, id) else Find(b.asks, id)
  }

  function Cancel(b: Book, id: OrderId): Book {
    Book(Remove(b.bids, id), Remove(b.asks, id))
  }

  predicate Expired(o: Order, now: U64) {
    o.timeInForce.GTD? && o.timeInForce.expiryNs <= now
  }

  function Expiring(q: seq<Order>, now: U64): seq<Order> {
    if q == [] then []
    else if Expired(q[0], now) then [q[0]] + Expiring(q[1..], now)
    else Expiring(q[1..], now)
  }

  function Surviving(q: seq<Order>, now: U64): seq<Order> {
    if q == [] then []
    else if Expired(q[0], now) then Surviving(q[1..], now)
    else [q[0]] + Surviving(q[1..], now)
  }

  function Purge(b: Book, now: U64): Book {
    Book(Surviving(b.bids, now), Surviving(b.asks, now))
  }

  /** The ids of a queue in priority order. */
  function IdList(q: seq<Order>): seq<OrderId> {
    if q == [] then [] else [q[0].id] + IdList(q[1..])
  }

  // ---------------------------------------------------------------------
  // Runs
  // ---------------------------------------------------------------------

  datatype Op =
    | InsertOp(order: Order, now: U64)
    | CancelOp(id: OrderId)
    | PurgeOp(now: U64)
    | CancelSideOp(side: Side)
    | CancelAllOp

  datatype Reply =
    | Fills(fills: seq<Fill>)
    | Gone(order: Option<Order>)
    | Purged(orders: seq<Order>)
    | Dropped(ids: seq<OrderId>)

  predicate Allowed(b: Book, op: Op)
    requires Inv(b)
  {
    op.InsertOp? ==> Admissible(b, op.order)
  }

  function Apply(b: Book, op: Op): Book
    requires Inv(b) && Allowed(b, op)
  {
    match op
    case InsertOp(o, now) => Insert(b, o, now).book
    case CancelOp(id) => Cancel(b, id)
    case PurgeOp(now) => Purge(b, now)
    case CancelSideOp(s) => b.With(s, [])
    case CancelAllOp => EMPTY
  }

  function Answer(b: Book, op: Op): Reply
    requires Inv(b) && Allowed(b, op)
  {
    match op
    case InsertOp(o, now) => Fills(Insert(b, o, now).fills)
    case CancelOp(id) => Gone(Cancelled(b, id))
    case PurgeOp(now) => Purged(Expiring(b.bids, now) + Expiring(b.asks, now))
    case CancelSideOp(s) => Dropped(IdList(b.Queue(s)))
    case CancelAllOp => Dropped(IdList(b.bids) + IdList(b.asks))
  }
}
