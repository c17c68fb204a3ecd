/** The map from resting order ids to their side and price. */
module IdIndexes {
  import opened Orders
  import opened NaiveBook
  import opened QueueLemmas

  type IdIndex = map<OrderId, (Side, I64)>

  /** What the id index holds for a queue. */
  function Index(q: seq<Order>): map<OrderId, (Side, I64)> {
    if q == [] then map[] else Index(q[1..])[q[0].id := (q[0].side, q[0].price)]
  }

  lemma {:induction false} IndexKeys(q: seq<Order>)
    ensures Index(q).Keys == Ids(q)
  {
    if q != [] { IndexKeys(q[1..]); }
  }

  lemma {:induction false} IndexFinds(q: seq<Order>, id: OrderId)
    requires id in Ids(q)
    ensures id in Index(q) && Find(q, id).Some? && Index(q)[id] == (Find(q, id).value.side, Find(q, id).value.price)
  {
    if q[0].id != id { IndexFinds(q[1..], id); }
  }

  lemma {:induction false} IndexRemove(q: seq<Order>, id: OrderId)
    requires Distinct(q)
    ensures Index(Remove(q, id)) == Index(q) - {id}
  {
    IndexKeys(q);
    if q == [] || id !in Ids(q) {
      RemoveAbsent(q, id);
    } else if q[0].id == id {
      IndexKeys(q[1..]);
    } else {
      IndexRemove(q[1..], id);
    }
  }

  lemma {:induction false} IndexEnqueue(q: seq<Order>, o: Order)
    requires o.id !in Ids(q)
    ensures Index(Enqueue(q, o)) == Index(q)[o.id := (o.side, o.price)]
  {
    if q == [] || Better(o.side, o.price, q[0].price) {
      assert ([o] + q)[1..] == q;
    } else {
      IndexEnqueue(q[1..], o);
    }
  }

  /** The index knows exactly the resting ids, with their true side and price. */
  lemma {:induction false} IndexLooksUp(b: Book, id: OrderId)
    requires Inv(b)
    ensures var index := Index(b.bids) + Index(b.asks);
      && (id in index <==> id in Ids(b.bids) + Ids(b.asks))
      && (id in Ids(b.bids) ==> Find(b.bids, id).Some? && index[id] == (Bid, Find(b.bids, id).value.price))
      && (id in Ids(b.asks) ==> Find(b.asks, id).Some? && index[id] == (Ask, Find(b.asks, id).value.price))
  {
    hide Find, Index, Remove, QueueOk, Ids;
    WhereResting(b, id);
    IndexKeys(b.bids);
    IndexKeys(b.asks);
    if id in Ids(b.bids) { IndexFinds(b.bids, id); }
    if id in Ids(b.asks) { IndexFinds(b.asks, id); }
  }

  lemma MapForget(x: IdIndex, y: IdIndex, id: OrderId)
    ensures (x + y) - {id} == (x - {id}) + (y - {id})
  {}

  /** Forgetting an id in the index is what cancelling it does. */
  lemma {:induction false} IndexForgets(b: Book, id: OrderId)
    requires Inv(b)
    ensures Index(b.bids) + Index(b.asks) - {id} == Index(Remove(b.bids, id)) + Index(Remove(b.asks, id))
  {
    IndexRemove(b.bids, id);
    IndexRemove(b.asks, id);
    MapForget(Index(b.bids), Index(b.asks), id);
  }

  lemma MapLearn(x: IdIndex, y: IdIndex, id: OrderId, v: (Side, I64))
    ensures (x + y)[id := v] == x + y[id := v]
    ensures id !in y ==> (x + y)[id := v] == x[id := v] + y
  {}

  /** Recording an order in the index is what enqueueing it does. */
  lemma {:induction false} IndexLearns(b: Book, o: Order)
    requires o.id !in Ids(b.bids) + Ids(b.asks)
    ensures var c := b.With(o.side, Enqueue(b.Queue(o.side), o));
      (Index(b.bids) + Index(b.asks))[o.id := (o.side, o.price)] == Index(c.bids) + Index(c.asks)
  {
    hide Index, Ids, Enqueue;
    IndexEnqueue(b.Queue(o.side), o);
    IndexKeys(b.asks);
    MapLearn(Index(b.bids), Index(b.asks), o.id, (o.side, o.price));
  }

  /** An id rests on one side at most, and cancelling it leaves the other side alone. */
  lemma {:induction false} WhereResting(b: Book, id: OrderId)
    requires Inv(b)
    ensures id in Ids(b.bids) ==>
              Find(b.bids, id).Some? && Find(b.bids, id).value.side == Bid && Remove(b.asks, id) == b.asks
    ensures id in Ids(b.asks) ==>
              Find(b.asks, id).Some? && Find(b.asks, id).value.side == Ask && Remove(b.bids, id) == b.bids
    ensures id !in Ids(b.bids) + Ids(b.asks) ==> Cancelled(b, id) == None && Cancel(b, id) == b
  {
    if id in Ids(b.bids) { FindSide(Bid, b.bids, id); } else { RemoveAbsent(b.bids, id); }
    if id in Ids(b.asks) { FindSide(Ask, b.asks, id); } else { RemoveAbsent(b.asks, id); }
  }

  lemma {:induction false} FindSide(s: Side, q: seq<Order>, id: OrderId)
    requires Resting(s, q) && id in Ids(q)
    ensures Find(q, id).Some? && Find(q, id).value.side == s
  {
    if q[0].id != id { FindSide(s, q[1..], id); }
  }
}
