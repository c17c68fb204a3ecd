/** What each operation of the book leaves and answers, written out on the fields of
    the orders alone. */
module BookOutcomes {
  import opened Orders
  import opened NaiveBook
  import opened QueueLemmas
  import opened BookInvariant
  import opened MatchingTheorems
  import opened PostOnlyRules

  // ---------------------------------------------------------------------
  // Submissions
  // ---------------------------------------------------------------------

  /** The order would trade at price `p`. */
  predicate WouldTradeAt(o: Order, p: int) {
    o.orderType == Market || (o.side == Bid && p <= o.price) || (o.side == Ask && p >= o.price)
  }

  /** The lots resting in a queue at prices the order would trade at. */
  function Available(q: seq<Order>, o: Order): int {
    if q == [] then 0
    else (if WouldTradeAt(o, q[0].price) then q[0].quantity - q[0].filledQuantity else 0) + Available(q[1..], o)
  }

  lemma {:induction false} AvailableIsCrossing(q: seq<Order>, o: Order)
    requires Live(q)
    ensures Available(q, o) == Crossing(q, o)
  {
    if q != [] { AvailableIsCrossing(q[1..], o); }
  }

  /** The lots an order trades on submission: none if it is a good-till-date order
      with a time in force that has run out at a `now` other than 0, none if it is
      fill-or-kill and not all of it is available, otherwise as many as it wants and
      are available. */
  function ToTrade(q: seq<Order>, o: Order, now: U64): int {
    if o.quantity <= o.filledQuantity then 0
    else if o.timeInForce.GTD? && 0 < now && o.timeInForce.expiryNs <= now then 0
    else if o.timeInForce == FOK && Available(q, o) < o.quantity - o.filledQuantity then 0
    else if Available(q, o) < o.quantity - o.filledQuantity then Available(q, o)
    else o.quantity - o.filledQuantity
  }

  /** What is left of the order goes onto the book: it has a limit, it is good till
      cancelled or till a date that is not past, and it is not filled. */
  predicate GoesOnBook(q: seq<Order>, o: Order, now: U64) {
    && (o.orderType == Limit || o.orderType.StopLimit?)
    && (o.timeInForce == GTC || (o.timeInForce.GTD? && (now == 0 || now < o.timeInForce.expiryNs)))
    && o.filledQuantity + ToTrade(q, o, now) < o.quantity
  }

  /** The side of the order gains just the remainder: behind every order at its price
      or a better one, before every order at a worse one. */
  ghost predicate Joins(own: seq<Order>, o: Order, traded: int, left: seq<Order>) {
    exists k, t: Order ::
      && 0 <= k <= |own| && left == own[..k] + [t] + own[k..]
      && t.filledQuantity == o.filledQuantity + traded && t == o.(filledQuantity := t.filledQuantity)
      && (forall i :: 0 <= i < k ==> if o.side == Bid then own[i].price >= o.price else own[i].price <= o.price)
      && (forall i :: k <= i < |own| ==> if o.side == Bid then own[i].price < o.price else own[i].price > o.price)
  }

  lemma {:induction false} TradesAsMuch(b: Book, o: Order, now: U64)
    requires Inv(b) && Admissible(b, o)
    ensures Traded(Insert(b, o, now).fills) == ToTrade(Makers(b, o), o, now)
  {
    hide Crossing, Available, Insert, Inv, Admissible;
    InvIsLive(b);
    AvailableIsCrossing(Makers(b, o), o);
    NothingTradedIsNothing(Insert(b, o, now).fills);
    if o.timeInForce.FOK? { FokAllOrNothing(b, o, now); } else { InsertTradesTheMinimum(b, o, now); }
  }

  lemma InvIsLive(b: Book)
    requires Inv(b)
    ensures Live(b.bids) && Live(b.asks) && Sorted(Bid, b.bids) && Sorted(Ask, b.asks)
  {}

  lemma {:induction false} JoinsAtPlace(own: seq<Order>, o: Order, traded: nat, left: seq<Order>, joins: bool)
    requires Sorted(o.side, own) && (joins ==> o.filledQuantity + traded < o.quantity)
    requires if joins then
               var t := o.(filledQuantity := o.filledQuantity + traded);
               var k := Place(own, t);
               left == own[..k] + [t] + own[k..]
             else left == own
    ensures if joins then Joins(own, o, traded, left) else left == own
  {
    hide Sorted, Enqueue;
    if joins {
      var t := o.(filledQuantity := o.filledQuantity + traded);
      BehindPlace(o.side, own, t);
      assert Joins(own, o, traded, left);
    }
  }

  /** What an order may do on the book, by what of it is left. */
  lemma RestsWhen(b: Book, o: Order, now: U64)
    requires ToTrade(Makers(b, o), o, now) >= 0
    ensures GoesOnBook(Makers(b, o), o, now) <==>
            !(ExpiredOnEntry(o, now) || !o.Rests() || o.filledQuantity + ToTrade(Makers(b, o), o, now) >= o.quantity)
  {
    hide Available;
  }

  lemma {:induction false} OwnSide(b: Book, o: Order, now: U64)
    requires Inv(b) && Admissible(b, o)
    ensures var left := Insert(b, o, now).book.Queue(o.side); var n := Traded(Insert(b, o, now).fills);
      n == ToTrade(Makers(b, o), o, now) &&
      if GoesOnBook(Makers(b, o), o, now) then Joins(b.Queue(o.side), o, n, left) else left == b.Queue(o.side)
  {
    hide Inv, Insert, Joins, ToTrade, GoesOnBook, Sorted, Admissible, Traded, Place, Enqueue, Better;
    InvIsLive(b);
    TradesAsMuch(b, o, now);
    RestsWhen(b, o, now);
    RemainderRests(b, o, now);
    var r := Insert(b, o, now);
    JoinsAtPlace(b.Queue(o.side), o, Traded(r.fills), r.book.Queue(o.side), GoesOnBook(Makers(b, o), o, now));
  }

  /** How much a submission trades and what it does to its own side. */
  lemma {:induction false} InsertOutcome(b: Book, o: Order, now: U64)
    requires Inv(b) && Admissible(b, o)
    ensures var r := Insert(b, o, now);
      var own := if o.side == Bid then b.bids else b.asks;
      var left := if o.side == Bid then r.book.bids else r.book.asks;
      var q := if o.side == Bid then b.asks else b.bids;
      && Traded(r.fills) == ToTrade(q, o, now)
      && if GoesOnBook(q, o, now) then Joins(own, o, ToTrade(q, o, now), left) else left == own
  {
    hide Inv, Insert, Joins, ToTrade, GoesOnBook, Admissible, Traded;
    OwnSide(b, o, now);
  }

  lemma {:induction false} NothingTradedIsNothing(fs: seq<Fill>)
    ensures fs == [] ==> Traded(fs) == 0
  {}

  lemma {:induction false} BehindPlace(s: Side, own: seq<Order>, t: Order)
    requires Sorted(s, own) && t.side == s
    ensures forall i :: Place(own, t) <= i < |own| ==> Better(s, t.price, own[i].price)
  {
    hide Sorted, Place;
    SortedPairwise(s, own);
  }

  /** A good-till-date order whose time has run out leaves no trace. Any other order,
      and every order at `now` 0, trades and rests as if it were good till cancelled
      unless it is immediate, whatever `now`. */
  lemma {:induction false} ExpiryOutcome(b: Book, o: Order, now: U64)
    requires Inv(b) && Admissible(b, o)
    ensures if o.timeInForce.GTD? && 0 < now && o.timeInForce.expiryNs <= now
            then Insert(b, o, now) == Inserted(b, [])
            else Insert(b, o, now) == Insert(b, o, 0)
  {}

  // ---------------------------------------------------------------------
  // The fills
  // ---------------------------------------------------------------------

  /** Every fill is with the next order of the opposite queue, at that order's price,
      for all of it unless it is the last; what is left of the queue is the rest. */
  ghost predicate TradesFromFront(q: seq<Order>, o: Order, fs: seq<Fill>, left: seq<Order>) {
    && |fs| <= |q|
    && (forall i :: 0 <= i < |fs| ==>
          && fs[i].makerId == q[i].id && fs[i].takerId == o.id
          && fs[i].price == q[i].price && fs[i].timestampNs == o.timestampNs
          && WouldTradeAt(o, q[i].price)
          && 0 < fs[i].quantity <= q[i].quantity - q[i].filledQuantity)
    && (forall i :: 0 <= i < |fs| - 1 ==> fs[i].quantity == q[i].quantity - q[i].filledQuantity)
    && (var n := |fs|;
        if n > 0 && fs[n - 1].quantity < q[n - 1].quantity - q[n - 1].filledQuantity then
          exists m: Order :: left == [m] + q[n..] && m == q[n - 1].(filledQuantity := m.filledQuantity)
                             && m.filledQuantity == q[n - 1].filledQuantity + fs[n - 1].quantity
        else left == q[n..])
  }

  lemma {:induction false} SweepFromFront(q: seq<Order>, o: Order)
    requires Live(q)
    ensures TradesFromFront(q, o, Sweep(q, o).fills, Sweep(q, o).rest)
    ensures TradesFromFront(q, o, [], q)
  {
    hide Sweep;
    SweepShape(q, o);
    SweepRest(q, o);
    var fs := Sweep(q, o).fills;
    forall i | 0 <= i < |fs| ensures Trades(fs[i], q[i], o) {}
    if Partial(Sweep(q, o), q) {
      var n := |fs|;
      var m := q[n - 1].Execute(fs[n - 1].quantity);
      assert Sweep(q, o).rest == [m] + q[n..];
    }
  }

  /** Which fills a submission gives and what they leave of the other side. */
  lemma {:induction false} FillsOutcome(b: Book, o: Order, now: U64)
    requires Inv(b) && Admissible(b, o)
    ensures var r := Insert(b, o, now);
      if o.side == Bid then TradesFromFront(b.asks, o, r.fills, r.book.asks)
      else TradesFromFront(b.bids, o, r.fills, r.book.bids)
  {
    hide Sweep, Crossing, Enqueue, Sorted, Distinct, Resting, Ids, Liquidity, TradesFromFront;
    SweepFromFront(Makers(b, o), o);
  }

  // ---------------------------------------------------------------------
  // Expiry
  // ---------------------------------------------------------------------

  /** `r` is what stands at the places `ks` of `q`, in the same order. */
  predicate Picks(q: seq<Order>, ks: seq<nat>, r: seq<Order>) {
    && |ks| == |r|
    && (forall i :: 0 <= i < |ks| ==> ks[i] < |q| && r[i] == q[ks[i]])
    && (forall i, j :: 0 <= i < j < |ks| ==> ks[i] < ks[j])
  }

  predicate RunOut(o: Order, now: U64) {
    o.timeInForce.GTD? && o.timeInForce.expiryNs <= now
  }

  function Shift(ks: seq<nat>): (r: seq<nat>)
    ensures |r| == |ks| && forall i :: 0 <= i < |ks| ==> r[i] == ks[i] + 1
  {
    if ks == [] then [] else [ks[0] + 1] + Shift(ks[1..])
  }

  lemma {:induction false} PicksBehind(q: seq<Order>, ks: seq<nat>, r: seq<Order>)
    requires q != [] && Picks(q[1..], ks, r)
    ensures Picks(q, Shift(ks), r) && Picks(q, [0] + Shift(ks), [q[0]] + r)
  {
    hide Shift;
    var more := [0] + Shift(ks);
    assert forall i :: 0 < i < |more| ==> more[i] == ks[i - 1] + 1 && ([q[0]] + r)[i] == r[i - 1];
  }

  lemma {:induction false} ShiftMembers(q: seq<Order>, ks: seq<nat>)
    ensures forall k :: 0 < k < |q| ==> (k in Shift(ks) <==> k - 1 in ks)
    ensures 0 !in Shift(ks)
  {
    hide Shift;
    forall k | 0 < k < |q| ensures k in Shift(ks) <==> k - 1 in ks {
      if k - 1 in ks {
        var i :| 0 <= i < |ks| && ks[i] == k - 1;
        assert Shift(ks)[i] == k;
      }
    }
  }

  /** The places of a queue whose orders have run out, or have not. */
  ghost predicate ArePlaces(q: seq<Order>, now: U64, ks: seq<nat>, out: bool) {
    forall k :: 0 <= k < |q| ==> (k in ks <==> RunOut(q[k], now) == out)
  }

  lemma {:induction false} PlacesBehind(q: seq<Order>, now: U64, ks: seq<nat>, out: bool)
    requires q != [] && ArePlaces(q[1..], now, ks, out)
    ensures ArePlaces(q, now, if RunOut(q[0], now) == out then [0] + Shift(ks) else Shift(ks), out)
  {
    hide Shift, RunOut;
    ShiftMembers(q, ks);
    assert forall k :: 0 < k < |q| ==> q[k] == q[1..][k - 1];
  }

  lemma {:induction false} PurgePlaces(q: seq<Order>, now: U64) returns (stay: seq<nat>, go: seq<nat>)
    ensures Picks(q, stay, Surviving(q, now)) && Picks(q, go, Expiring(q, now))
    ensures ArePlaces(q, now, go, true) && ArePlaces(q, now, stay, false)
  {
    if q == [] {
      stay, go := [], [];
    } else {
      hide Picks, Shift, ArePlaces;
      var s, g := PurgePlaces(q[1..], now);
      PicksBehind(q, s, Surviving(q[1..], now));
      PicksBehind(q, g, Expiring(q[1..], now));
      PlacesBehind(q, now, s, false);
      PlacesBehind(q, now, g, true);
      stay, go := Shift(s), Shift(g);
      if RunOut(q[0], now) { go := [0] + go; } else { stay := [0] + stay; }
    }
  }

  /** A purge answers with the resting good-till-date orders whose expiry is at or
      before `now`, bids before asks, and leaves all others, both in the order in
      which they stood. */
  lemma {:induction false} PurgeOutcome(b: Book, now: U64)
    returns (bids: seq<Order>, goB: seq<nat>, stayB: seq<nat>, asks: seq<Order>, goA: seq<nat>, stayA: seq<nat>)
    requires Inv(b)
    ensures Answer(b, PurgeOp(now)) == Purged(bids + asks)
    ensures Picks(b.bids, goB, bids) && Picks(b.bids, stayB, Apply(b, PurgeOp(now)).bids)
    ensures Picks(b.asks, goA, asks) && Picks(b.asks, stayA, Apply(b, PurgeOp(now)).asks)
    ensures ArePlaces(b.bids, now, goB, true) && ArePlaces(b.bids, now, stayB, false)
    ensures ArePlaces(b.asks, now, goA, true) && ArePlaces(b.asks, now, stayA, false)
  {
    hide Inv, Picks, ArePlaces, Expiring, Surviving;
    stayB, goB := PurgePlaces(b.bids, now);
    stayA, goA := PurgePlaces(b.asks, now);
    bids, asks := Expiring(b.bids, now), Expiring(b.asks, now);
  }

  // ---------------------------------------------------------------------
  // Cancelling
  // ---------------------------------------------------------------------

  /** Cancelling an id that rests at place `k` of a side answers with that order and
      takes just it; cancelling any other id answers nothing and changes nothing. */
  lemma {:induction false} CancelOutcome(b: Book, id: OrderId)
    requires Inv(b)
    ensures var left, reply := Apply(b, CancelOp(id)), Answer(b, CancelOp(id));
      && (forall k :: 0 <= k < |b.bids| && b.bids[k].id == id ==>
            reply == Gone(Some(b.bids[k])) && left.bids == b.bids[..k] + b.bids[k + 1..] && left.asks == b.asks)
      && (forall k :: 0 <= k < |b.asks| && b.asks[k].id == id ==>
            reply == Gone(Some(b.asks[k])) && left.asks == b.asks[..k] + b.asks[k + 1..] && left.bids == b.bids)
      && ((forall o :: o in b.bids + b.asks ==> o.id != id) ==> reply == Gone(None) && left == b)
  {
    InvIsDistinct(b);
    hide Inv, Cancel, Cancelled, Ids, Distinct, Apply, Answer;
    CancelIsCancel(b, id);
    var p := CancelExact(b, id);
    OnlyPlace(b.bids, id, p);
    OnlyPlace(b.asks, id, p);
    if id in Ids(b.bids) {
      assert b.bids[p] in b.bids + b.asks;
    } else if id in Ids(b.asks) {
      assert b.asks[p] in b.bids + b.asks;
    }
  }

  lemma CancelIsCancel(b: Book, id: OrderId)
    requires Inv(b)
    ensures Apply(b, CancelOp(id)) == Cancel(b, id) && Answer(b, CancelOp(id)) == Gone(Cancelled(b, id))
  {
    hide Inv, Cancel, Cancelled;
  }

  /** An id rests at one place of a queue or at none. */
  lemma {:induction false} OnlyPlace(q: seq<Order>, id: OrderId, p: nat)
    requires Distinct(q)
    ensures id !in Ids(q) ==> forall k :: 0 <= k < |q| ==> q[k].id != id
    ensures p < |q| && q[p].id == id ==> forall k :: 0 <= k < |q| && q[k].id == id ==> k == p
  {
    hide Distinct, Ids;
    IdsMembers(q, id);
    DistinctPairwise(q);
  }

  lemma InvIsDistinct(b: Book)
    requires Inv(b)
    ensures Distinct(b.bids) && Distinct(b.asks) && Ids(b.bids) !! Ids(b.asks)
  {}

  /** The ids are those of the orders, one by one. */
  predicate AreIdsOf(ids: seq<OrderId>, q: seq<Order>) {
    |ids| == |q| && forall i :: 0 <= i < |q| ==> ids[i] == q[i].id
  }

  lemma {:induction false} IdListIsIds(q: seq<Order>)
    ensures AreIdsOf(IdList(q), q)
  {
    if q != [] { IdListIsIds(q[1..]); }
  }

  /** Cancelling a side or all answers with the ids in priority order, bids first, and
      leaves nothing of what was cancelled and everything else. */
  lemma {:induction false} CancelManyOutcome(b: Book, s: Side)
    requires Inv(b)
    ensures var side, all := Answer(b, CancelSideOp(s)), Answer(b, CancelAllOp);
      && side.Dropped? && AreIdsOf(side.ids, if s == Bid then b.bids else b.asks)
      && all.Dropped? && AreIdsOf(all.ids, b.bids + b.asks)
      && Apply(b, CancelSideOp(s)) == (if s == Bid then Book([], b.asks) else Book(b.bids, []))
      && Apply(b, CancelAllOp) == Book([], [])
  {
    hide Inv, IdList;
    IdListIsIds(b.bids);
    IdListIsIds(b.asks);
  }

  // ---------------------------------------------------------------------
  // Best prices and the post-only verdict
  // ---------------------------------------------------------------------

  /** The best bid is the greatest and the best ask the least resting price. */
  lemma BestPriceOutcome(b: Book)
    requires Inv(b)
    ensures BestPrice(b.bids).None? <==> b.bids == []
    ensures BestPrice(b.asks).None? <==> b.asks == []
    ensures b.bids != [] ==> BestPrice(b.bids).value == b.bids[0].price
    ensures b.asks != [] ==> BestPrice(b.asks).value == b.asks[0].price
    ensures forall k :: 0 <= k < |b.bids| ==> b.bids[k].price <= BestPrice(b.bids).value
    ensures forall k :: 0 <= k < |b.asks| ==> b.asks[k].price >= BestPrice(b.asks).value
  {
    hide Sorted, Distinct, Resting, Ids, Liquidity;
    SortedPairwise(Bid, b.bids);
    SortedPairwise(Ask, b.asks);
  }

  /** Some order of the other side rests at the order's price or a better one for it. */
  ghost predicate MeetsResting(b: Book, o: Order) {
    if o.side == Bid then exists k :: 0 <= k < |b.asks| && b.asks[k].price <= o.price
    else exists k :: 0 <= k < |b.bids| && b.bids[k].price >= o.price
  }

  /** The post-only verdict: market orders are invalid, and another order matches
      exactly if some order of the other side rests at its limit or better. */
  lemma VerdictOutcome(b: Book, o: Order)
    requires Inv(b)
    ensures BookVerdict(b, o) == InvalidOrderType <==> o.orderType == Market
    ensures BookVerdict(b, o) == WouldMatch <==> o.orderType != Market && MeetsResting(b, o)
  {
    hide Inv;
    BestPriceOutcome(b);
    if b.asks != [] && o.price >= b.asks[0].price { assert b.asks[0].price <= o.price; }
    if b.bids != [] && o.price <= b.bids[0].price { assert b.bids[0].price >= o.price; }
  }
}
