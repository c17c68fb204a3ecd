/** Price levels and the ordered map of levels on one side of the book
    (src/book.rs:44-94). A `BTreeMap` keyed by price is represented by its entries
    in key order: asks by ascending price, bids by descending price. */
module Levels {
  import opened Orders
  import opened NaiveBook
  import opened QueueLemmas

  datatype PriceLevel = PriceLevel(price: I64, orders: seq<Order>, totalQuantity: U64) {
    static function New(price: I64): PriceLevel {
      PriceLevel(price, [], 0)
    }

    predicate IsEmpty() {
      orders == []
    }

    function Push(o: Order): PriceLevel
      requires o.filledQuantity <= o.quantity && totalQuantity + o.Remaining() <= U64_MAX
    {
      PriceLevel(price, orders + [o], totalQuantity + o.Remaining())
    }
  }

  function SaturatingSub(a: U64, b: U64): U64 {
    if a >= b then a - b else 0
  }

  type LevelMap = seq<PriceLevel>

  // ---------------------------------------------------------------------
  // Map operations
  // ---------------------------------------------------------------------

  function Get(m: LevelMap, price: I64): Option<PriceLevel> {
    if m == [] then None else if m[0].price == price then Some(m[0]) else Get(m[1..], price)
  }

  /** Store `l` under its price, replacing what was there. */
  function Put(s: Side, m: LevelMap, l: PriceLevel): LevelMap {
    if m == [] || Better(s, l.price, m[0].price) then [l] + m
    else if m[0].price == l.price then [l] + m[1..]
    else [m[0]] + Put(s, m[1..], l)
  }

  function Delete(m: LevelMap, price: I64): LevelMap {
    if m == [] then [] else if m[0].price == price then m[1..] else [m[0]] + Delete(m[1..], price)
  }

  /** `range(..=limit)` in the key order of side `s`. */
  function UpTo(s: Side, m: LevelMap, limit: I64): LevelMap {
    if m == [] || Better(s, limit, m[0].price) then [] else [m[0]] + UpTo(s, m[1..], limit)
  }

  function Totals(m: LevelMap): nat {
    if m == [] then 0 else m[0].totalQuantity + Totals(m[1..])
  }

  // ---------------------------------------------------------------------
  // Meaning
  // ---------------------------------------------------------------------

  /** The queue a map of levels stands for. */
  function Flat(m: LevelMap): seq<Order> {
    if m == [] then [] else m[0].orders + Flat(m[1..])
  }

  /** Every order carries the level's price, and the cached total is right. */
  predicate LevelOk(l: PriceLevel) {
    && Live(l.orders)
    && (forall i :: 0 <= i < |l.orders| ==> l.orders[i].price == l.price)
    && l.totalQuantity == Liquidity(l.orders)
  }

  /** Levels are sound, non-empty and in strict price order. */
  predicate LevelsOk(s: Side, m: LevelMap) {
    m == [] ||
    (&& LevelOk(m[0]) && !m[0].IsEmpty()
     && (|m| > 1 ==> Better(s, m[0].price, m[1].price))
     && LevelsOk(s, m[1..]))
  }

  // ---------------------------------------------------------------------
  // Levels against the flat queue
  // ---------------------------------------------------------------------

  lemma {:induction false} FlatHead(s: Side, m: LevelMap)
    requires LevelsOk(s, m) && m != []
    ensures Flat(m) != [] && Flat(m)[0] == m[0].orders[0] && Flat(m)[0].price == m[0].price
  {}

  lemma {:induction false} FlatLiquidity(s: Side, m: LevelMap)
    requires LevelsOk(s, m)
    ensures Live(Flat(m)) && Totals(m) == Liquidity(Flat(m))
  {
    if m != [] {
      FlatLiquidity(s, m[1..]);
      LiquidityAppend(m[0].orders, Flat(m[1..]));
    }
  }

  /** The entry of a price holds no more than the whole side does. */
  lemma {:induction false} EntryTotal(s: Side, m: LevelMap, price: I64)
    requires LevelsOk(s, m) && Get(m, price).Some?
    ensures LevelOk(Get(m, price).value) && Get(m, price).value.price == price
    ensures Get(m, price).value.totalQuantity <= Totals(m)
  {
    if m[0].price != price { EntryTotal(s, m[1..], price); }
  }

  lemma {:induction false} EnqueuePast(a: seq<Order>, b: seq<Order>, o: Order)
    requires forall i :: 0 <= i < |a| ==> !Better(o.side, o.price, a[i].price)
    ensures Enqueue(a + b, o) == a + Enqueue(b, o)
  {
    if a == [] {
      assert a + b == b;
    } else {
      assert (a + b)[1..] == a[1..] + b;
      EnqueuePast(a[1..], b, o);
    }
  }

  /** What `entry(price).or_insert_with(..).push(o)` stores. */
  function Pushed(m: LevelMap, o: Order): PriceLevel
    requires o.filledQuantity <= o.quantity
    requires Get(m, o.price).Some? ==> Get(m, o.price).value.totalQuantity + o.Remaining() <= U64_MAX
  {
    var e := Get(m, o.price);
    (if e.Some? then e.value else PriceLevel.New(o.price)).Push(o)
  }

  lemma PushOk(l: PriceLevel, o: Order)
    requires LevelOk(l) && o.filledQuantity < o.quantity && o.price == l.price
    requires l.totalQuantity + o.Remaining() <= U64_MAX
    ensures LevelOk(l.Push(o))
  {
    LiquidityAppend(l.orders, [o]);
    assert Liquidity([o]) == o.Remaining() + Liquidity([o][1..]);
  }

  lemma {:induction false} PushAtFront(s: Side, m: LevelMap, o: Order)
    requires LevelsOk(s, m) && o.side == s && o.filledQuantity < o.quantity
    requires m != [] && m[0].price == o.price && m[0].totalQuantity + o.Remaining() <= U64_MAX
    ensures var l := [m[0].Push(o)] + m[1..]; LevelsOk(s, l) && Flat(l) == Enqueue(Flat(m), o)
  {
    PushOk(m[0], o);
    var rest := m[1..];
    assert ([m[0].Push(o)] + rest)[1..] == rest;
    EnqueuePast(m[0].orders, Flat(rest), o);
    if rest != [] { FlatHead(s, rest); }
    assert m[0].orders + ([o] + Flat(rest)) == (m[0].orders + [o]) + Flat(rest);
  }

  /** Pushing into the level of the order's price is enqueueing in the flat queue. */
  lemma {:induction false} PushIsEnqueue(s: Side, m: LevelMap, o: Order)
    requires LevelsOk(s, m) && o.side == s && o.filledQuantity < o.quantity
    requires Get(m, o.price).Some? ==> Get(m, o.price).value.totalQuantity + o.Remaining() <= U64_MAX
    ensures LevelsOk(s, Put(s, m, Pushed(m, o)))
    ensures Flat(Put(s, m, Pushed(m, o))) == Enqueue(Flat(m), o)
    ensures Put(s, m, Pushed(m, o))[0].price ==
            if m == [] || Better(s, o.price, m[0].price) then o.price else m[0].price
  {
    hide Enqueue, Flat, Liquidity;
    if m == [] || Better(s, o.price, m[0].price) {
      PushNewFront(s, m, o);
    } else if m[0].price == o.price {
      PushAtFront(s, m, o);
    } else {
      PushIsEnqueue(s, m[1..], o);
      assert m == [m[0]] + m[1..];
      PushBehind(s, m[0], m[1..], o, Put(s, m[1..], Pushed(m, o)));
    }
  }

  lemma {:induction false} PushNewFront(s: Side, m: LevelMap, o: Order)
    requires LevelsOk(s, m) && o.side == s && o.filledQuantity < o.quantity
    requires m == [] || Better(s, o.price, m[0].price)
    ensures Get(m, o.price) == None
    ensures var l := [PriceLevel.New(o.price).Push(o)] + m; LevelsOk(s, l) && Flat(l) == Enqueue(Flat(m), o)
  {
    hide Get;
    GetBehind(s, m, o.price);
    PushOk(PriceLevel.New(o.price), o);
    assert ([PriceLevel.New(o.price).Push(o)] + m)[1..] == m;
    if m != [] { FlatHead(s, m); }
  }

  lemma {:induction false} PushBehind(s: Side, l: PriceLevel, m: LevelMap, o: Order, r: LevelMap)
    requires LevelsOk(s, [l] + m) && LevelsOk(s, r) && r != [] && Better(s, l.price, r[0].price)
    requires o.side == s && !Better(s, o.price, l.price) && Flat(r) == Enqueue(Flat(m), o)
    ensures LevelsOk(s, [l] + r) && Flat([l] + r) == Enqueue(Flat([l] + m), o)
  {
    assert ([l] + r)[1..] == r && ([l] + m)[1..] == m;
    EnqueuePast(l.orders, Flat(m), o);
  }

  /** A price better than the front is not in the map. */
  lemma {:induction false} GetBehind(s: Side, m: LevelMap, price: I64)
    requires LevelsOk(s, m) && (m != [] ==> Better(s, price, m[0].price))
    ensures Get(m, price) == None
  {
    if m != [] { GetBehind(s, m[1..], price); }
  }

  // ---------------------------------------------------------------------
  // Cancelling inside a level
  // ---------------------------------------------------------------------

  lemma {:induction false} FindAppend(a: seq<Order>, b: seq<Order>, id: OrderId)
    ensures Find(a + b, id) == if id in Ids(a) then Find(a, id) else Find(b, id)
  {
    if a == [] {
      assert a + b == b;
    } else {
      assert (a + b)[1..] == a[1..] + b;
      FindAppend(a[1..], b, id);
    }
  }

  lemma {:induction false} RemoveInFront(a: seq<Order>, b: seq<Order>, id: OrderId)
    requires id in Ids(a)
    ensures Remove(a + b, id) == Remove(a, id) + b
  {
    assert (a + b)[1..] == a[1..] + b;
    if a[0].id != id { RemoveInFront(a[1..], b, id); }
  }

  lemma {:induction false} RemoveBehind(a: seq<Order>, b: seq<Order>, id: OrderId)
    requires id !in Ids(a)
    ensures Remove(a + b, id) == a + Remove(b, id)
  {
    if a == [] {
      assert a + b == b && a + Remove(b, id) == Remove(b, id);
    } else {
      assert (a + b)[1..] == a[1..] + b;
      RemoveBehind(a[1..], b, id);
    }
  }

  /** The map after `l` replaced its entry and was pruned if empty. */
  function Updated(s: Side, m: LevelMap, l: PriceLevel): LevelMap {
    if l.IsEmpty() then Delete(Put(s, m, l), l.price) else Put(s, m, l)
  }

  lemma {:induction false} FindPrice(q: seq<Order>, p: I64, id: OrderId)
    requires id in Ids(q) && (forall i :: 0 <= i < |q| ==> q[i].price == p)
    ensures Find(q, id).Some? && Find(q, id).value.price == p
  {
    if q[0].id != id { FindPrice(q[1..], p, id); }
  }

  /** The level the index points to holds the order. */
  lemma {:induction false} CancelLocates(s: Side, m: LevelMap, id: OrderId)
    requires LevelsOk(s, m) && id in Ids(Flat(m))
    ensures Find(Flat(m), id).Some?
    ensures var e := Get(m, Find(Flat(m), id).value.price);
      && e.Some? && e.value.price == Find(Flat(m), id).value.price && LevelOk(e.value)
      && id in Ids(e.value.orders) && Find(e.value.orders, id) == Find(Flat(m), id)
  {
    IdsAppend(m[0].orders, Flat(m[1..]));
    FindAppend(m[0].orders, Flat(m[1..]), id);
    if id in Ids(m[0].orders) {
      FindPrice(m[0].orders, m[0].price, id);
    } else {
      CancelLocates(s, m[1..], id);
      NotInFront(s, m, Find(Flat(m), id).value.price);
    }
  }

  /** Replacing that level by one without the order, or pruning it when nothing is
      left, drops the order from the flat queue. */
  lemma {:induction false} CancelUpdates(s: Side, m: LevelMap, id: OrderId, l: PriceLevel)
    requires LevelsOk(s, m) && id in Ids(Flat(m)) && LevelOk(l)
    requires Find(Flat(m), id).Some? && l.price == Find(Flat(m), id).value.price
    requires Get(m, l.price).Some? && l.orders == Remove(Get(m, l.price).value.orders, id)
    ensures LevelsOk(s, Updated(s, m, l)) && Flat(Updated(s, m, l)) == Remove(Flat(m), id)
    ensures Updated(s, m, l) != [] ==> !Better(s, Updated(s, m, l)[0].price, m[0].price)
  {
    var rest := m[1..];
    IdsAppend(m[0].orders, Flat(rest));
    FindAppend(m[0].orders, Flat(rest), id);
    if id in Ids(m[0].orders) {
      RemoveInFront(m[0].orders, Flat(rest), id);
      FindPrice(m[0].orders, m[0].price, id);
      assert ([l] + rest)[1..] == rest;
      assert [] + Flat(rest) == Flat(rest);
    } else {
      RemoveBehind(m[0].orders, Flat(rest), id);
      CancelLocates(s, rest, id);
      NotInFront(s, m, l.price);
      CancelUpdates(s, rest, id, l);
      UpdatedBehind(s, m, l);
      var u := Updated(s, rest, l);
      assert ([m[0]] + u)[1..] == u;
    }
  }

  lemma UpdatedBehind(s: Side, m: LevelMap, l: PriceLevel)
    requires m != [] && Better(s, m[0].price, l.price)
    ensures Updated(s, m, l) == [m[0]] + Updated(s, m[1..], l)
  {
    var r := Put(s, m[1..], l);
    assert ([m[0]] + r)[1..] == r;
  }

  lemma {:induction false} NotInFront(s: Side, m: LevelMap, p: I64)
    requires LevelsOk(s, m) && m != [] && Get(m[1..], p).Some?
    ensures Better(s, m[0].price, p)
  {
    if !Better(s, m[0].price, p) {
      GetBehindOrAt(s, m, p);
    }
  }

  lemma {:induction false} GetBehindOrAt(s: Side, m: LevelMap, p: I64)
    requires LevelsOk(s, m) && m != [] && !Better(s, m[0].price, p)
    ensures Get(m[1..], p) == None
  {
    GetBehind(s, m[1..], p);
  }

  // ---------------------------------------------------------------------
  // Ranges
  // ---------------------------------------------------------------------

  /** The limit a taker's matching loop uses. */
  function TakerLimit(t: Order): I64 {
    if t.orderType.Market? then (if t.side.Bid? then I64_MAX else I64_MIN) else t.price
  }

  lemma {:induction false} RangeIsReach(s: Side, m: LevelMap, t: Order)
    requires LevelsOk(s, m) && t.side == s.Opposite()
    ensures var r := UpTo(s, m, TakerLimit(t));
      && |r| <= |m| && r == m[..|r|]
      && (forall i :: 0 <= i < |r| ==> Reaches(t, m[i].price))
      && (|r| < |m| ==> !Reaches(t, m[|r|].price))
  {
    if m != [] && Reaches(t, m[0].price) {
      RangeIsReach(s, m[1..], t);
      var r := UpTo(s, m, TakerLimit(t));
      var r1 := UpTo(s, m[1..], TakerLimit(t));
      assert r[1..] == r1 && m[..|r|] == [m[0]] + m[1..][..|r1|];
      forall i | 0 <= i < |r| ensures Reaches(t, m[i].price) {
        if i > 0 { assert m[i] == m[1..][i - 1]; }
      }
    }
  }
}
