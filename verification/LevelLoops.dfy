/** The loops of the matching engine over price levels: filling, searching, collecting. */
module LevelLoops {
  import opened Orders
  import opened NaiveBook
  import opened QueueLemmas
  import opened MatchingTheorems
  import opened Dropping
  import opened IdIndexes
  import opened Levels

  // ---------------------------------------------------------------------
  // One price level
  // ---------------------------------------------------------------------

  /** Trade the taker against one level, oldest maker first. The source has this
      loop twice with the same text, once per taker side. `tail` is the rest of the
      queue behind the level and `other` the part of the index outside both. */
  method FillLevel(level0: PriceLevel, taker0: Order, fills0: seq<Fill>, index0: IdIndex,
                   ghost tail: seq<Order>, ghost other: IdIndex)
    returns (level: PriceLevel, taker: Order, fills: seq<Fill>, index: IdIndex)
    requires LevelOk(level0) && Live(tail) && Distinct(level0.orders + tail)
    requires taker0.filledQuantity <= taker0.quantity && Reaches(taker0, level0.price)
    requires index0 == other + Index(level0.orders + tail) && other.Keys !! Ids(level0.orders + tail)
    ensures LevelOk(level) && level.price == level0.price
    ensures taker == taker0.(filledQuantity := taker.filledQuantity) && taker.filledQuantity <= taker.quantity
    ensures taker.IsFilled() || level.IsEmpty()
    ensures Sweep(level0.orders + tail, taker0).After(fills0) == Sweep(level.orders + tail, taker).After(fills)
    ensures index == other + Index(level.orders + tail)
    ensures Distinct(level.orders + tail) && Ids(level.orders + tail) <= Ids(level0.orders + tail)
  {
    hide Sweep, Distinct, Ids, Index, Liquidity;
    level, taker, fills, index := level0, taker0, fills0, index0;
    while level.orders != []
      invariant LevelOk(level) && level.price == level0.price
      invariant taker == taker0.(filledQuantity := taker.filledQuantity) && taker.filledQuantity <= taker.quantity
      invariant Distinct(level.orders + tail) && Ids(level.orders + tail) <= Ids(level0.orders + tail)
      invariant Sweep(level0.orders + tail, taker0).After(fills0) == Sweep(level.orders + tail, taker).After(fills)
      invariant index == other + Index(level.orders + tail)
      decreases |level.orders|, if taker.IsFilled() then 0 else 1
    {
      if taker.IsFilled() {
        break;
      }
      var maker := level.orders[0];
      var tradeQty := Min(taker.Remaining(), maker.Remaining());
      if tradeQty == 0 {
        break;
      }
      ghost var rest := level.orders[1..] + tail;
      assert level.orders + tail == [maker] + rest;
      FillTurn(maker, rest, taker, fills);
      IndexTurn(maker, rest, tradeQty, other);
      LevelTurn(level, tradeQty);

      taker := taker.Execute(tradeQty);
      maker := maker.Execute(tradeQty);
      level := level.(
        orders := level.orders[0 := maker],
        totalQuantity := SaturatingSub(level.totalQuantity, tradeQty));
      fills := fills + [Fill(maker.id, taker0.id, maker.price, tradeQty, taker0.timestampNs)];
      if maker.IsFilled() {
        level := level.(orders := level.orders[1..]);
        index := index - {maker.id};
        assert level.orders + tail == rest;
      } else {
        assert level.orders + tail == [maker] + rest;
      }
    }
  }

  /** One turn of the fill loop, on the flat queue. */
  lemma {:induction false} FillTurn(maker: Order, rest: seq<Order>, taker: Order, fills: seq<Fill>)
    requires maker.filledQuantity < maker.quantity && Live(rest)
    requires !taker.IsFilled() && Reaches(taker, maker.price)
    ensures var n := Min(taker.Remaining(), maker.Remaining());
      var f := Fill(maker.id, taker.id, maker.price, n, taker.timestampNs);
      Sweep([maker] + rest, taker).After(fills)
      == if n == maker.Remaining() then Sweep(rest, taker.Execute(n)).After(fills + [f])
         else Sweep([maker.Execute(n)] + rest, taker.Execute(n)).After(fills + [f])
  {
    var n := Min(taker.Remaining(), maker.Remaining());
    var f := Fill(maker.id, taker.id, maker.price, n, taker.timestampNs);
    assert ([maker] + rest)[1..] == rest;
    SweepStep([maker] + rest, taker);
    if n == maker.Remaining() {
      hide Sweep;
      var r := Sweep(rest, taker.Execute(n));
      assert fills + ([f] + r.fills) == (fills + [f]) + r.fills;
    }
  }

  lemma {:induction false} IndexTurn(maker: Order, rest: seq<Order>, n: U64, other: IdIndex)
    requires maker.filledQuantity + n <= maker.quantity
    requires Distinct([maker] + rest) && other.Keys !! Ids([maker] + rest)
    ensures var next := [maker.Execute(n)] + rest;
      Distinct(next) && Ids(next) == Ids([maker] + rest) && Index(next) == Index([maker] + rest)
    ensures Distinct(rest) && Ids(rest) <= Ids([maker] + rest)
    ensures other + Index([maker] + rest) - {maker.id} == other + Index(rest)
  {
    assert ([maker] + rest)[1..] == rest && ([maker.Execute(n)] + rest)[1..] == rest;
    IndexKeys(rest);
  }

  /** After a trade the level's cached total is exact without saturating. */
  lemma LevelTurn(level: PriceLevel, n: U64)
    requires LevelOk(level) && level.orders != [] && n <= level.orders[0].Remaining()
    ensures n <= level.totalQuantity
    ensures var l :=
        level.(orders := level.orders[0 := level.orders[0].Execute(n)], totalQuantity := level.totalQuantity - n);
      if n == level.orders[0].Remaining() then LevelOk(l.(orders := l.orders[1..])) else LevelOk(l)
  {
    var o := level.orders[0 := level.orders[0].Execute(n)];
    assert o[1..] == level.orders[1..];
  }

  // ---------------------------------------------------------------------
  // Lemmas for the level loops
  // ---------------------------------------------------------------------

  function Prices(m: LevelMap): (keys: seq<I64>)
    ensures |keys| == |m| && forall i :: 0 <= i < |m| ==> keys[i] == m[i].price
  {
    if m == [] then [] else [m[0].price] + Prices(m[1..])
  }

  lemma {:induction false} LevelsStop(s: Side, m: LevelMap, t: Order)
    requires LevelsOk(s, m) && Live(Flat(m)) && (t.IsFilled() || m == [] || !Reaches(t, m[0].price))
    ensures forall fs :: Sweep(Flat(m), t).After(fs) == Swept(fs, Flat(m), t)
  {
    if m != [] { FlatHead(s, m); }
    SweepStops(Flat(m), t);
  }

  /** What `FillLevel` needs of the level in front. */
  lemma {:induction false} FrontParts(s: Side, m: LevelMap, price: I64)
    requires LevelsOk(s, m) && m != [] && m[0].price == price
    ensures Get(m, price) == Some(m[0]) && LevelOk(m[0]) && LevelsOk(s, m[1..])
    ensures Flat(m) == m[0].orders + Flat(m[1..]) && Live(Flat(m[1..]))
  {
    FlatLiquidity(s, m[1..]);
  }

  /** Updating the entry of the best price touches only the front of the map. */
  lemma {:induction false} UpdateFront(s: Side, m: LevelMap, l: PriceLevel)
    requires LevelsOk(s, m) && m != [] && LevelOk(l) && l.price == m[0].price
    ensures l.IsEmpty() ==> Updated(s, m, l) == m[1..]
    ensures LevelsOk(s, Updated(s, m, l)) && Flat(Updated(s, m, l)) == l.orders + Flat(m[1..])
    ensures Live(Flat(Updated(s, m, l)))
  {
    assert ([l] + m[1..])[1..] == m[1..];
    assert [] + Flat(m[1..]) == Flat(m[1..]);
    FlatLiquidity(s, m[1..]);
    LiveAppend(l.orders, Flat(m[1..]));
  }

  lemma {:induction false} IndexSwap(a: seq<Order>, b: seq<Order>)
    requires Ids(a) !! Ids(b)
    ensures Index(a) + Index(b) == Index(b) + Index(a)
  {
    IndexKeys(a);
    IndexKeys(b);
  }

  /** The sum of cached totals within the limit is the crossing liquidity. */
  lemma {:induction false} TotalsAreCrossing(s: Side, m: LevelMap, t: Order)
    requires LevelsOk(s, m) && t.side == s.Opposite() && Live(Flat(m)) && Sorted(s, Flat(m))
    ensures Totals(UpTo(s, m, TakerLimit(t))) == Crossing(Flat(m), t) <= Totals(m)
  {
    if m == [] {
    } else if !Reaches(t, m[0].price) {
      CrossingZero(s, Flat(m), t);
    } else {
      var rest := m[1..];
      FlatLiquidity(s, rest);
      SortedAppend(s, m[0].orders, Flat(rest));
      TotalsAreCrossing(s, rest, t);
      CrossingLevel(m[0].orders, Flat(rest), t);
    }
  }

  lemma {:induction false} CrossingLevel(a: seq<Order>, b: seq<Order>, t: Order)
    requires Live(a) && Live(b) && Live(a + b)
    requires forall i :: 0 <= i < |a| ==> Reaches(t, a[i].price)
    ensures Crossing(a + b, t) == Liquidity(a) + Crossing(b, t)
  {
    if a == [] {
      assert a + b == b;
    } else {
      assert (a + b)[1..] == a[1..] + b;
      CrossingLevel(a[1..], b, t);
    }
  }

  // ---------------------------------------------------------------------
  // Searching a level
  // ---------------------------------------------------------------------

  /** Take the order with this id out of a level. */
  method RemoveFromLevel(level0: PriceLevel, id: OrderId) returns (level: PriceLevel, order: Option<Order>)
    requires LevelOk(level0)
    ensures LevelOk(level) && level.price == level0.price
    ensures level.orders == Remove(level0.orders, id) && order == Find(level0.orders, id)
  {
    hide Liquidity, Find, Remove;
    var orders := level0.orders;
    var pos := 0;
    assert orders[..0] + Remove(orders[0..], id) == Remove(orders, id) && orders[0..] == orders;
    while pos < |orders| && orders[pos].id != id
      invariant pos <= |orders|
      invariant Find(orders, id) == Find(orders[pos..], id)
      invariant Remove(orders, id) == orders[..pos] + Remove(orders[pos..], id)
    {
      SearchTurn(orders, pos, id);
      pos := pos + 1;
    }
    SearchTurn(orders, pos, id);
    if pos == |orders| {
      return level0, None;
    }
    DropLiquidity(orders, pos);
    level := level0.(orders := orders[..pos] + orders[pos + 1..],
                     totalQuantity := SaturatingSub(level0.totalQuantity, orders[pos].Remaining()));
    order := Some(orders[pos]);
  }

  /** One turn of the search for an id, and its two ways to end. */
  lemma {:induction false} SearchTurn(q: seq<Order>, pos: nat, id: OrderId)
    requires pos <= |q|
    ensures pos == |q| ==> Find(q[pos..], id) == None && q[..pos] + Remove(q[pos..], id) == q
    ensures pos < |q| && q[pos].id == id ==> Find(q[pos..], id) == Some(q[pos]) && Remove(q[pos..], id) == q[pos + 1..]
    ensures pos < |q| && q[pos].id != id ==>
              && Find(q[pos..], id) == Find(q[pos + 1..], id)
              && q[..pos] + Remove(q[pos..], id) == q[..pos + 1] + Remove(q[pos + 1..], id)
  {
    if pos < |q| {
      assert q[pos..][1..] == q[pos + 1..];
      assert q[..pos] + [q[pos]] == q[..pos + 1];
    }
  }

  lemma {:induction false} DropLiquidity(q: seq<Order>, k: nat)
    requires Live(q) && k < |q|
    ensures Liquidity(q) == Liquidity(q[..k] + q[k + 1..]) + q[k].Remaining()
  {
    var a, b := q[..k], q[k..];
    assert q == a + b && b[1..] == q[k + 1..];
    assert Liquidity(b) == q[k].Remaining() + Liquidity(b[1..]);
    hide Liquidity;
    LiquidityAppend(a, b);
    LiquidityAppend(a, b[1..]);
  }

  // ---------------------------------------------------------------------
  // Collecting ids
  // ---------------------------------------------------------------------

  type Removal = (Side, I64, OrderId)

  function Thirds(t: seq<Removal>): seq<OrderId> {
    if t == [] then [] else [t[0].2] + Thirds(t[1..])
  }

  lemma {:induction false} ThirdsAppend(a: seq<Removal>, b: seq<Removal>)
    ensures Thirds(a + b) == Thirds(a) + Thirds(b)
    ensures |Thirds(a)| == |a| && forall i :: 0 <= i < |a + b| ==>
              |Thirds(a + b)| == |a + b| && Thirds(a + b)[i] == (a + b)[i].2
  {
    ThirdsAt(a + b);
    ThirdsAt(a);
    if a == [] {
      assert a + b == b;
    } else {
      assert (a + b)[1..] == a[1..] + b;
      ThirdsAppend(a[1..], b);
    }
  }

  lemma {:induction false} ThirdsAt(t: seq<Removal>)
    ensures |Thirds(t)| == |t| && forall i :: 0 <= i < |t| ==> Thirds(t)[i] == t[i].2
  {
    if t != [] { ThirdsAt(t[1..]); }
  }

  /** Collect (side, price, id) of the expired orders of one side, front to back.
      The source has this double loop once per side. */
  method ExpiredIn(side: Side, m: LevelMap, now: U64) returns (toRemove: seq<Removal>)
    ensures Thirds(toRemove) == IdList(Expiring(Flat(m), now))
  {
    hide Flat, Expiring, IdList, Thirds;
    toRemove := [];
    ghost var done: seq<Order> := [];
    CollectNothing(m, now);
    var i := 0;
    while i < |m|
      invariant 0 <= i <= |m|
      invariant done + Flat(m[i..]) == Flat(m)
      invariant Thirds(toRemove) == IdList(Expiring(done, now))
    {
      var orders := m[i].orders;
      var j := 0;
      assert done + orders[..0] == done;
      while j < |orders|
        invariant 0 <= j <= |orders|
        invariant Thirds(toRemove) == IdList(Expiring(done + orders[..j], now))
      {
        var order := orders[j];
        CollectOne(done + orders[..j], order, now, toRemove, (side, m[i].price, order.id));
        assert done + orders[..j] + [order] == done + orders[..j + 1];
        if order.timeInForce.GTD? {
          if order.timeInForce.expiryNs <= now {
            toRemove := toRemove + [(side, m[i].price, order.id)];
          }
        }
        j := j + 1;
      }
      FlatFrom(m, i);
      assert orders[..j] == orders;
      assert done + (orders + Flat(m[i + 1..])) == (done + orders) + Flat(m[i + 1..]);
      done := done + orders;
      i := i + 1;
    }
    CollectedAll(m, done);
  }

  lemma {:induction false} CollectNothing(m: LevelMap, now: U64)
    ensures [] + Flat(m[0..]) == Flat(m) && Thirds([]) == IdList(Expiring([], now))
  {
    assert m[0..] == m;
  }

  lemma FlatFrom(m: LevelMap, i: nat)
    requires i < |m|
    ensures Flat(m[i..]) == m[i].orders + Flat(m[i + 1..])
  {
    assert m[i..][1..] == m[i + 1..];
  }

  lemma {:induction false} CollectedAll(m: LevelMap, done: seq<Order>)
    requires done + Flat(m[|m|..]) == Flat(m)
    ensures done == Flat(m)
  {
    assert done + [] == done;
  }

  lemma {:induction false} CollectOne(done: seq<Order>, o: Order, now: U64, t: seq<Removal>, r: Removal)
    requires Thirds(t) == IdList(Expiring(done, now)) && r.2 == o.id
    ensures IdList(Expiring(done + [o], now)) == if Expired(o, now) then Thirds(t + [r]) else Thirds(t)
  {
    ExpiringAppend(done, [o], now);
    ThirdsAppend(t, [r]);
    assert [o][1..] == [] && [r][1..] == [];
    IdListAppend(Expiring(done, now), Expiring([o], now));
  }

  function LevelIds(m: LevelMap): seq<OrderId> {
    if m == [] then [] else IdList(m[0].orders) + LevelIds(m[1..])
  }

  lemma {:induction false} LevelIdsAreQueueIds(m: LevelMap)
    ensures LevelIds(m) == IdList(Flat(m))
  {
    if m != [] {
      LevelIdsAreQueueIds(m[1..]);
      IdListAppend(m[0].orders, Flat(m[1..]));
    }
  }
}
