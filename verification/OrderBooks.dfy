/** The matching engine (src/book.rs:86-537): two maps of FIFO price levels with
    cached totals and an id index, updated in place. Every method is proved to do
    to the flat queues exactly what the reference book of `NaiveBook` does. */
module OrderBooks {
  import opened Orders
  import opened NaiveBook
  import opened BookInvariant
  import opened Dropping
  import opened IdIndexes
  import opened Levels
  import opened LevelLoops
  import opened MarketDepth

  /** The level of a resting order's price has room for it. */
  lemma {:induction false} PushFits(s: Side, m: LevelMap, o: Order)
    requires LevelsOk(s, m) && o.filledQuantity < o.quantity
    requires Live(Flat(m)) && Liquidity(Flat(m)) + o.Remaining() <= U64_MAX
    ensures Get(m, o.price).Some? ==> Get(m, o.price).value.totalQuantity + o.Remaining() <= U64_MAX
  {
    FlatLiquidity(s, m);
    if Get(m, o.price).Some? { EntryTotal(s, m, o.price); }
  }

  /** What is left of an order after matching still fits its own side. */
  lemma RemainderFits(b: Book, o: Order)
    requires Inv(b) && Admissible(b, o)
    ensures var m := Match(b.Queue(o.side.Opposite()), o);
      m.taker == o.(filledQuantity := m.taker.filledQuantity) && o.filledQuantity <= m.taker.filledQuantity
    ensures var t := Match(b.Queue(o.side.Opposite()), o).taker;
      !t.IsFilled() && t.Rests() ==> Liquidity(b.Queue(o.side)) + t.Remaining() <= U64_MAX
  {
    MatchKeepsInv(b, o);
  }

  class OrderBook {
    var bids: LevelMap
    var asks: LevelMap
    var orderIndex: IdIndex

    /** The reference book this book stands for. */
    ghost function Contents(): Book
      reads this
    {
      Book(Flat(bids), Flat(asks))
    }

    ghost predicate Valid()
      reads this
    {
      && LevelsOk(Bid, bids)
      && LevelsOk(Ask, asks)
      && Inv(Contents())
      && orderIndex == Index(Flat(bids)) + Index(Flat(asks))
    }

    constructor ()
      ensures Valid() && Contents() == EMPTY
    {
      bids, asks, orderIndex := [], [], map[];
    }

    /** Crossing ask liquidity covers the whole fill-or-kill bid. The sum of cached
        totals is the source's u64 sum, which the invariant keeps in range. */
    method CanFillBid(order: Order) returns (ok: bool)
      requires Valid() && order.side == Bid && order.filledQuantity <= order.quantity
      ensures ok <==> Crossing(Flat(asks), order) >= order.Remaining()
    {
      var takerPrice := if order.orderType.Market? then I64_MAX else order.price;
      TotalsAreCrossing(Ask, asks, order);
      FlatLiquidity(Ask, asks);
      var available: U64 := Totals(UpTo(Ask, asks, takerPrice));
      ok := available >= order.Remaining();
    }

    method CanFillAsk(order: Order) returns (ok: bool)
      requires Valid() && order.side == Ask && order.filledQuantity <= order.quantity
      ensures ok <==> Crossing(Flat(bids), order) >= order.Remaining()
    {
      var takerPrice := if order.orderType.Market? then I64_MIN else order.price;
      TotalsAreCrossing(Bid, bids, order);
      FlatLiquidity(Bid, bids);
      var available: U64 := Totals(UpTo(Bid, bids, takerPrice));
      ok := available >= order.Remaining();
    }

    /** Trade against the ask levels at `keys` in turn until the taker is filled. */
    method TradeAsks(order: Order, keys: seq<I64>) returns (taker: Order, fills: seq<Fill>)
      requires LevelsOk(Ask, asks) && Live(Flat(asks)) && Distinct(Flat(asks)) && Ids(Flat(bids)) !! Ids(Flat(asks))
      requires orderIndex == Index(Flat(bids)) + Index(Flat(asks))
      requires |keys| <= |asks| && forall i :: 0 <= i < |keys| ==> keys[i] == asks[i].price && Reaches(order, keys[i])
      requires |keys| < |asks| ==> !Reaches(order, asks[|keys|].price)
      modifies `asks, `orderIndex
      ensures LevelsOk(Ask, asks) && Live(Flat(asks))
      ensures Sweep(old(Flat(asks)), order) == Swept(fills, Flat(asks), taker)
      ensures orderIndex == Index(Flat(bids)) + Index(Flat(asks))
    {
      hide Sweep, Distinct, Ids, Index, Liquidity, Flat, LevelsOk, Put, Delete, Get, Live, LevelOk;
      taker, fills := order, [];
      ghost var levels := asks;
      ghost var other := Index(Flat(bids));
      IndexKeys(Flat(bids));
      assert levels[0..] == levels;
      var i := 0;
      while i < |keys|
        invariant 0 <= i <= |keys|
        invariant taker == order.(filledQuantity := taker.filledQuantity)
        invariant taker.IsFilled() || asks == levels[i..]
        invariant LevelsOk(Ask, asks) && Live(Flat(asks)) && Distinct(Flat(asks)) && other.Keys !! Ids(Flat(asks))
        invariant Sweep(Flat(levels), order) == Sweep(Flat(asks), taker).After(fills)
        invariant orderIndex == other + Index(Flat(asks))
      {
        if taker.IsFilled() {
          break;
        }
        ghost var tail := asks[1..];
        assert asks[0] == levels[i] && tail == levels[i + 1..];
        FrontParts(Ask, asks, keys[i]);
        var level := Get(asks, keys[i]).value;
        level, taker, fills, orderIndex := FillLevel(level, taker, fills, orderIndex, Flat(tail), other);
        UpdateFront(Ask, asks, level);
        asks := Put(Ask, asks, level);
        if level.IsEmpty() {
          asks := Delete(asks, keys[i]);
        }
        i := i + 1;
      }
      LevelsStop(Ask, asks, taker);
    }

    /** Match an incoming bid against the asks, lowest price up. */
    method MatchBid(order: Order) returns (taker: Order, fills: seq<Fill>)
      requires Valid() && order.side == Bid
      requires order.timeInForce.FOK? ==> order.filledQuantity <= order.quantity
      modifies `asks, `orderIndex
      ensures LevelsOk(Ask, asks)
      ensures Match(old(Flat(asks)), order) == Swept(fills, Flat(asks), taker)
      ensures orderIndex == Index(Flat(bids)) + Index(Flat(asks))
    {
      hide Sweep, Distinct, Ids, Index, Flat, LevelsOk, UpTo, Crossing;
      if order.timeInForce.FOK? {
        var ok := CanFillBid(order);
        if !ok {
          return order, [];
        }
      }
      var takerPrice := if order.orderType.Market? then I64_MAX else order.price;
      var keys := Prices(UpTo(Ask, asks, takerPrice));
      RangeIsReach(Ask, asks, order);
      taker, fills := TradeAsks(order, keys);
    }

    /** Trade against the bid levels at `keys` in turn until the taker is filled. */
    method TradeBids(order: Order, keys: seq<I64>) returns (taker: Order, fills: seq<Fill>)
      requires LevelsOk(Bid, bids) && Live(Flat(bids)) && Distinct(Flat(bids)) && Ids(Flat(asks)) !! Ids(Flat(bids))
      requires orderIndex == Index(Flat(bids)) + Index(Flat(asks))
      requires |keys| <= |bids| && forall i :: 0 <= i < |keys| ==> keys[i] == bids[i].price && Reaches(order, keys[i])
      requires |keys| < |bids| ==> !Reaches(order, bids[|keys|].price)
      modifies `bids, `orderIndex
      ensures LevelsOk(Bid, bids) && Live(Flat(bids))
      ensures Sweep(old(Flat(bids)), order) == Swept(fills, Flat(bids), taker)
      ensures orderIndex == Index(Flat(bids)) + Index(Flat(asks))
    {
      hide Sweep, Distinct, Ids, Index, Liquidity, Flat, LevelsOk, Put, Delete, Get, Live, LevelOk;
      taker, fills := order, [];
      ghost var levels := bids;
      ghost var other := Index(Flat(asks));
      IndexKeys(Flat(asks));
      IndexSwap(Flat(bids), Flat(asks));
      assert levels[0..] == levels;
      var i := 0;
      while i < |keys|
        invariant 0 <= i <= |keys|
        invariant taker == order.(filledQuantity := taker.filledQuantity)
        invariant taker.IsFilled() || bids == levels[i..]
        invariant LevelsOk(Bid, bids) && Live(Flat(bids)) && Distinct(Flat(bids)) && other.Keys !! Ids(Flat(bids))
        invariant Sweep(Flat(levels), order) == Sweep(Flat(bids), taker).After(fills)
        invariant orderIndex == other + Index(Flat(bids))
      {
        if taker.IsFilled() {
          break;
        }
        ghost var tail := bids[1..];
        assert bids[0] == levels[i] && tail == levels[i + 1..];
        FrontParts(Bid, bids, keys[i]);
        var level := Get(bids, keys[i]).value;
        level, taker, fills, orderIndex := FillLevel(level, taker, fills, orderIndex, Flat(tail), other);
        UpdateFront(Bid, bids, level);
        bids := Put(Bid, bids, level);
        if level.IsEmpty() {
          bids := Delete(bids, keys[i]);
        }
        i := i + 1;
      }
      IndexSwap(Flat(bids), Flat(asks));
      LevelsStop(Bid, bids, taker);
    }

    /** Match an incoming ask against the bids, highest price down. */
    method MatchAsk(order: Order) returns (taker: Order, fills: seq<Fill>)
      requires Valid() && order.side == Ask
      requires order.timeInForce.FOK? ==> order.filledQuantity <= order.quantity
      modifies `bids, `orderIndex
      ensures LevelsOk(Bid, bids)
      ensures Match(old(Flat(bids)), order) == Swept(fills, Flat(bids), taker)
      ensures orderIndex == Index(Flat(bids)) + Index(Flat(asks))
    {
      hide Sweep, Distinct, Ids, Index, Flat, LevelsOk, UpTo, Crossing;
      if order.timeInForce.FOK? {
        var ok := CanFillAsk(order);
        if !ok {
          return order, [];
        }
      }
      var takerPrice := if order.orderType.Market? then I64_MIN else order.price;
      var keys := Prices(UpTo(Bid, bids, takerPrice));
      RangeIsReach(Bid, bids, order);
      taker, fills := TradeBids(order, keys);
    }

    /** Place an unexecuted remainder on the book. */
    method RestOrder(order: Order)
      requires Valid() && order.Rests() && order.filledQuantity < order.quantity
      requires order.id !in Ids(Flat(bids)) + Ids(Flat(asks))
      requires Liquidity(Contents().Queue(order.side)) + order.Remaining() <= U64_MAX
      requires var q := Contents().Queue(order.side.Opposite()); q != [] ==> !Reaches(order, q[0].price)
      modifies this
      ensures Valid()
      ensures Contents() == old(Contents()).With(order.side, Enqueue(old(Contents()).Queue(order.side), order))
    {
      assert Live(Flat(bids)) && Live(Flat(asks));
      hide Sweep, Distinct, Ids, Index, Flat, LevelsOk, Liquidity, Enqueue, Get, Put, QueueOk;
      RestKeepsInv(Contents(), order);
      IndexLearns(Contents(), order);
      orderIndex := orderIndex[order.id := (order.side, order.price)];
      match order.side {
        case Bid =>
          PushFits(Bid, bids, order);
          PushIsEnqueue(Bid, bids, order);
          var entry := Get(bids, order.price);
          var level := if entry.Some? then entry.value else PriceLevel.New(order.price);
          bids := Put(Bid, bids, level.Push(order));
        case Ask =>
          PushFits(Ask, asks, order);
          PushIsEnqueue(Ask, asks, order);
          var entry := Get(asks, order.price);
          var level := if entry.Some? then entry.value else PriceLevel.New(order.price);
          asks := Put(Ask, asks, level.Push(order));
      }
    }

    /** Submit an order: it does to the book, and answers, what the reference book does. */
    method InsertWithTime(order: Order, now: U64) returns (fills: seq<Fill>)
      requires Valid() && Admissible(Contents(), order)
      modifies this
      ensures Valid()
      ensures Inserted(Contents(), fills) == NaiveBook.Insert(old(Contents()), order, now)
    {
      hide Sweep, Distinct, Ids, Index, Flat, LevelsOk, Liquidity, Enqueue, QueueOk, Match;
      if order.timeInForce.GTD? {
        if now > 0 && order.timeInForce.expiryNs <= now {
          return [];
        }
      }
      MatchKeepsInv(Contents(), order);
      RemainderFits(Contents(), order);
      var taker: Order;
      match order.side {
        case Bid => taker, fills := MatchBid(order);
        case Ask => taker, fills := MatchAsk(order);
      }
      if !taker.IsFilled() {
        match taker.orderType {
          case Market =>
          case Limit =>
            if taker.timeInForce.GTC? || taker.timeInForce.GTD? {
              RestOrder(taker);
            }
          case StopLimit(_) =>
            if taker.timeInForce.GTC? || taker.timeInForce.GTD? {
              RestOrder(taker);
            }
        }
      }
    }

    /** Submission without an expiry check. */
    method Insert(order: Order) returns (fills: seq<Fill>)
      requires Valid() && Admissible(Contents(), order)
      modifies this
      ensures Valid()
      ensures Inserted(Contents(), fills) == NaiveBook.Insert(old(Contents()), order, 0)
    {
      fills := InsertWithTime(order, 0);
    }

    /** Remove the order with this id, or report that there is none. */
    method Cancel(id: OrderId) returns (cancelled: Option<Order>)
      requires Valid()
      modifies this
      ensures Valid()
      ensures Contents() == NaiveBook.Cancel(old(Contents()), id)
      ensures cancelled == Cancelled(old(Contents()), id)
    {
      hide Sweep, Distinct, Ids, Index, Flat, LevelsOk, Liquidity, Get, Put, Delete, QueueOk, Find, Remove;
      CancelKeepsInv(Contents(), id);
      IndexLooksUp(Contents(), id);
      IndexForgets(Contents(), id);
      WhereResting(Contents(), id);
      if id !in orderIndex {
        return None;
      }
      var (side, price) := orderIndex[id];
      orderIndex := orderIndex - {id};
      match side {
        case Bid =>
          CancelLocates(Bid, bids, id);
          var level := Get(bids, price).value;
          level, cancelled := RemoveFromLevel(level, id);
          CancelUpdates(Bid, bids, id, level);
          bids := Put(Bid, bids, level);
          if level.IsEmpty() {
            bids := Delete(bids, price);
          }
        case Ask =>
          CancelLocates(Ask, asks, id);
          var level := Get(asks, price).value;
          level, cancelled := RemoveFromLevel(level, id);
          CancelUpdates(Ask, asks, id, level);
          asks := Put(Ask, asks, level);
          if level.IsEmpty() {
            asks := Delete(asks, price);
          }
      }
    }

    // -------------------------------------------------------------------
    // Housekeeping
    // -------------------------------------------------------------------

    /** Remove every resting good-till-date order that has expired. */
    method PurgeExpired(now: U64) returns (expired: seq<Order>)
      requires Valid()
      modifies this
      ensures Valid()
      ensures Contents() == Purge(old(Contents()), now)
      ensures expired == Expiring(old(Flat(bids)), now) + Expiring(old(Flat(asks)), now)
    {
      ghost var gone := Expiring(Flat(bids), now) + Expiring(Flat(asks), now);
      ExpiringCancelInTurn(Contents(), now);
      DropExpired(Contents(), now);
      IdListAppend(Expiring(Flat(bids), now), Expiring(Flat(asks), now));
      hide *;
      var fromBids := ExpiredIn(Bid, bids, now);
      var fromAsks := ExpiredIn(Ask, asks, now);
      ThirdsAppend(fromBids, fromAsks);
      expired := CancelInTurn(fromBids + fromAsks, gone);
    }

    /** The removal loop of a purge: `gone` are the orders the ids belong to. */
    method CancelInTurn(toRemove: seq<Removal>, ghost gone: seq<Order>) returns (expired: seq<Order>)
      requires Valid() && CancelsInTurn(Contents(), Thirds(toRemove), gone)
      modifies this
      ensures Valid()
      ensures Contents() == BookWithout(old(Contents()), Thirds(toRemove)) && expired == gone
    {
      ghost var start, ids := Contents(), Thirds(toRemove);
      NothingDropped(start);
      ThirdsAt(toRemove);
      hide Flat, Inv, Thirds, BookWithout, Cancelled, NaiveBook.Cancel, Index, LevelsOk;
      expired := [];
      var i := 0;
      while i < |toRemove|
        invariant 0 <= i <= |toRemove|
        invariant Valid() && Contents() == BookWithout(start, ids[..i])
        invariant expired == gone[..i]
      {
        var order := Cancel(toRemove[i].2);
        if order.Some? {
          expired := expired + [order.value];
        }
        i := i + 1;
      }
      assert ids[..i] == ids;
    }

    /** The ids resting on one side, in priority order. */
    method AllOrderIdsBySide(side: Side) returns (ids: seq<OrderId>)
      requires Valid()
      ensures ids == IdList(Contents().Queue(side))
    {
      LevelIdsAreQueueIds(bids);
      LevelIdsAreQueueIds(asks);
      ids := match side case Bid => LevelIds(bids) case Ask => LevelIds(asks);
    }

    // -------------------------------------------------------------------
    // Queries
    // -------------------------------------------------------------------

    method BestBid() returns (best: Option<I64>)
      requires Valid()
      ensures best == BestPrice(Flat(bids))
    {
      if bids != [] { FlatHead(Bid, bids); }
      best := if bids == [] then None else Some(bids[0].price);
    }

    method BestAsk() returns (best: Option<I64>)
      requires Valid()
      ensures best == BestPrice(Flat(asks))
    {
      if asks != [] { FlatHead(Ask, asks); }
      best := if asks == [] then None else Some(asks[0].price);
    }

    /** The spread of a valid book is strictly positive. The source's subtraction
        wraps for prices more than i64 apart. */
    method Spread() returns (spread: Option<I64>)
      requires Valid() && (bids != [] && asks != [] ==> asks[0].price - bids[0].price <= I64_MAX)
      ensures spread.None? <==> Flat(bids) == [] || Flat(asks) == []
      ensures spread.Some? ==> spread.value == Flat(asks)[0].price - Flat(bids)[0].price && spread.value > 0
    {
      var ask := BestAsk();
      var bid := BestBid();
      spread := if ask.Some? && bid.Some? then Some(ask.value - bid.value) else None;
    }

    /** The best `levels` prices of a side with the quantity resting at each. */
    method Depth(side: Side, levels: nat) returns (d: seq<(I64, U64)>)
      requires Valid()
      ensures IsDepth(side, Contents().Queue(side), levels, d)
    {
      RowsAreDepth(Bid, bids, levels);
      RowsAreDepth(Ask, asks, levels);
      d := match side case Bid => Rows(bids, levels) case Ask => Rows(asks, levels);
    }
  }
}
