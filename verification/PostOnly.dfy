/** Post-only checks and mass cancellation on the live book (src/post_only.rs). */
module PostOnly {
  import opened Orders
  import opened NaiveBook
  import opened Dropping
  import opened PostOnlyRules
  import opened IdIndexes
  import opened Levels
  import opened OrderBooks

  method CheckPostOnly(order: Order, book: OrderBook) returns (result: PostOnlyResult)
    requires book.Valid()
    ensures result == BookVerdict(book.Contents(), order)
  {
    if order.orderType.Market? {
      return InvalidOrderType;
    }
    match order.side {
      case Bid =>
        var bestAsk := book.BestAsk();
        if bestAsk.Some? && order.price >= bestAsk.value {
          return WouldMatch;
        }
      case Ask =>
        var bestBid := book.BestBid();
        if bestBid.Some? && order.price <= bestBid.value {
          return WouldMatch;
        }
    }
    return WouldRest;
  }

  datatype CancelAllResult = CancelAllResult(cancelledIds: seq<OrderId>, count: nat)

  /** Empty one side, reporting each of its ids once in priority order, and leave
      the other side untouched. */
  method CancelAllSide(book: OrderBook, side: Side) returns (r: CancelAllResult)
    requires book.Valid()
    modifies book
    ensures book.Valid() && book.Contents() == old(book.Contents()).With(side, [])
    ensures r.cancelledIds == IdList(old(book.Contents()).Queue(side)) && r.count == |r.cancelledIds|
  {
    var ids := book.AllOrderIdsBySide(side);
    var count := |ids|;
    ghost var start := book.Contents();
    NothingDropped(start);
    DropSide(start, side);
    var i := 0;
    while i < |ids|
      invariant 0 <= i <= |ids|
      invariant book.Valid() && book.Contents() == BookWithout(start, ids[..i])
    {
      DropOne(start, ids, i);
      var _ := book.Cancel(ids[i]);
      i := i + 1;
    }
    assert ids[..i] == ids;
    r := CancelAllResult(ids, count);
  }

  method CancelAll(book: OrderBook) returns (r: CancelAllResult)
    requires book.Valid()
    modifies book
    ensures book.Valid() && book.Contents() == EMPTY
    ensures r.cancelledIds == IdList(old(book.Contents()).bids) + IdList(old(book.Contents()).asks)
    ensures r.count == |r.cancelledIds|
  {
    var bidResult := CancelAllSide(book, Bid);
    var askResult := CancelAllSide(book, Ask);
    var cancelledIds := bidResult.cancelledIds + askResult.cancelledIds;
    r := CancelAllResult(cancelledIds, |cancelledIds|);
  }

  lemma DropSide(b: Book, s: Side)
    requires Inv(b)
    ensures BookWithout(b, IdList(b.Queue(s))) == b.With(s, [])
  {
    IdListFacts(b.Queue(s));
    WithoutAll(b.Queue(s), Ids(b.Queue(s)));
    WithoutNobody(b.Queue(s.Opposite()), Ids(b.Queue(s)));
  }

  // ---------------------------------------------------------------------
  // The fields are determined by the contents
  // ---------------------------------------------------------------------

  /** Two sound level maps for the same queue are equal: no book operation can
      leave a trace in the levels that the queue does not show. */
  lemma {:induction false} LevelsAreCanonical(s: Side, m1: LevelMap, m2: LevelMap)
    requires LevelsOk(s, m1) && LevelsOk(s, m2) && Flat(m1) == Flat(m2)
    ensures m1 == m2
  {
    if m1 == [] || m2 == [] {
      if m1 != [] { FlatHead(s, m1); }
      if m2 != [] { FlatHead(s, m2); }
    } else {
      FlatHead(s, m1);
      FlatHead(s, m2);
      FrontNotLonger(s, m1, m2);
      FrontNotLonger(s, m2, m1);
      var k := |m1[0].orders|;
      assert m1[0].orders == Flat(m1)[..k] && m2[0].orders == Flat(m2)[..k];
      assert Flat(m1[1..]) == Flat(m1)[k..] && Flat(m2[1..]) == Flat(m2)[k..];
      LevelsAreCanonical(s, m1[1..], m2[1..]);
      assert m1 == [m1[0]] + m1[1..] && m2 == [m2[0]] + m2[1..];
    }
  }

  lemma {:induction false} FrontNotLonger(s: Side, m1: LevelMap, m2: LevelMap)
    requires LevelsOk(s, m1) && LevelsOk(s, m2) && m1 != [] && m2 != [] && Flat(m1) == Flat(m2)
    requires m1[0].price == m2[0].price
    ensures |m1[0].orders| <= |m2[0].orders|
  {
    var k := |m2[0].orders|;
    if |m1[0].orders| > k {
      assert Flat(m2)[k] == Flat(m1)[k] == m1[0].orders[k];
      assert Flat(m2)[k] == Flat(m2[1..])[0];
      FlatHead(s, m2[1..]);
    }
  }

  /** A passive order that is inserted and cancelled leaves every field of the book
      as it was, and comes back as it went in. */
  method InsertThenCancel(book: OrderBook, order: Order, now: U64) returns (fills: seq<Fill>, back: Option<Order>)
    requires book.Valid() && Admissible(book.Contents(), order)
    requires order.Rests() && !order.IsFilled() && !ExpiredOnEntry(order, now)
    requires BookVerdict(book.Contents(), order) == WouldRest
    modifies book
    ensures book.bids == old(book.bids) && book.asks == old(book.asks) && book.orderIndex == old(book.orderIndex)
    ensures fills == [] && back == Some(order)
  {
    PassiveInsertThenCancel(book.Contents(), order, now);
    ghost var bids, asks := book.bids, book.asks;
    hide Inv, Flat, LevelsOk, Admissible, NaiveBook.Insert, NaiveBook.Cancel, Index;
    fills := book.InsertWithTime(order, now);
    back := book.Cancel(order.id);
    LevelsAreCanonical(Bid, bids, book.bids);
    LevelsAreCanonical(Ask, asks, book.asks);
  }
}
