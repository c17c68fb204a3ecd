/** Bid/ask symmetry. The source writes the two sides separately; turning a book
    around, with price p becoming -1 - p so that i64 is mapped onto itself, turns
    every result around. */
module Mirror {
  import opened Orders
  import opened NaiveBook
  import opened QueueLemmas
  import opened BookInvariant

  function FlipPrice(p: I64): I64 {
    -1 - p
  }

  function FlipOrder(o: Order): Order {
    o.(side := o.side.Opposite(), price := FlipPrice(o.price))
  }

  function FlipQueue(q: seq<Order>): seq<Order> {
    if q == [] then [] else [FlipOrder(q[0])] + FlipQueue(q[1..])
  }

  function FlipFills(fs: seq<Fill>): seq<Fill> {
    if fs == [] then [] else [fs[0].(price := FlipPrice(fs[0].price))] + FlipFills(fs[1..])
  }

  function FlipBook(b: Book): Book {
    Book(FlipQueue(b.asks), FlipQueue(b.bids))
  }

  function FlipSwept(r: Swept): Swept {
    Swept(FlipFills(r.fills), FlipQueue(r.rest), FlipOrder(r.taker))
  }

  lemma {:induction false} FlipQueueFacts(q: seq<Order>)
    ensures |FlipQueue(q)| == |q| && Ids(FlipQueue(q)) == Ids(q)
    ensures Live(q) ==> Live(FlipQueue(q)) && Liquidity(FlipQueue(q)) == Liquidity(q)
    ensures Distinct(q) <==> Distinct(FlipQueue(q))
  {
    if q != [] { FlipQueueFacts(q[1..]); }
  }

  lemma {:induction false} FlipQueueOk(s: Side, q: seq<Order>)
    requires QueueOk(s, q)
    ensures QueueOk(s.Opposite(), FlipQueue(q))
  {
    if q != [] {
      SuffixOk(s, q, 1);
      FlipQueueOk(s, q[1..]);
      FlipQueueFacts(q);
      var r := FlipQueue(q);
      assert r[1..] == FlipQueue(q[1..]);
    }
  }

  lemma FlipInv(b: Book)
    requires Inv(b)
    ensures Inv(FlipBook(b))
  {
    FlipQueueOk(Bid, b.bids);
    FlipQueueOk(Ask, b.asks);
    FlipQueueFacts(b.bids);
    FlipQueueFacts(b.asks);
  }

  lemma {:induction false} FlipEnqueue(q: seq<Order>, o: Order)
    ensures FlipQueue(Enqueue(q, o)) == Enqueue(FlipQueue(q), FlipOrder(o))
  {
    if q == [] || Better(o.side, o.price, q[0].price) {
      assert ([o] + q)[1..] == q;
    } else {
      FlipEnqueue(q[1..], o);
      assert FlipQueue(q)[1..] == FlipQueue(q[1..]);
    }
  }

  lemma {:induction false} FlipRemove(q: seq<Order>, id: OrderId)
    ensures FlipQueue(Remove(q, id)) == Remove(FlipQueue(q), id)
    ensures Find(FlipQueue(q), id) == if Find(q, id).None? then None else Some(FlipOrder(Find(q, id).value))
  {
    if q != [] {
      FlipRemove(q[1..], id);
      assert FlipQueue(q)[1..] == FlipQueue(q[1..]);
    }
  }

  lemma {:induction false} FlipCons(f: Fill, fs: seq<Fill>, o: Order, q: seq<Order>)
    ensures FlipFills([f] + fs) == [f.(price := FlipPrice(f.price))] + FlipFills(fs)
    ensures FlipQueue([o] + q) == [FlipOrder(o)] + FlipQueue(q)
  {
    assert ([f] + fs)[1..] == fs && ([o] + q)[1..] == q;
  }

  lemma FlipAfter(f: Fill, r: Swept)
    ensures FlipSwept(r.After([f])) == FlipSwept(r).After([f.(price := FlipPrice(f.price))])
  {
    FlipCons(f, r.fills, r.taker, []);
  }

  lemma {:induction false} FlipHead(q: seq<Order>)
    ensures q == [] <==> FlipQueue(q) == []
    ensures q != [] ==> FlipQueue(q)[0] == FlipOrder(q[0]) && FlipQueue(q)[1..] == FlipQueue(q[1..])
  {}

  lemma {:induction false} FlipSweep(q: seq<Order>, t: Order)
    requires Live(q) && Live(FlipQueue(q))
    ensures Sweep(FlipQueue(q), FlipOrder(t)) == FlipSwept(Sweep(q, t))
  {
    hide Sweep, FlipQueue, FlipFills;
    var fq := FlipQueue(q);
    FlipHead(q);
    FlipNothing();
    if q == [] || t.IsFilled() || !Reaches(t, q[0].price) {
      SweepStops(q, t);
      SweepStops(fq, FlipOrder(t));
    } else {
      SweepStep(q, t);
      SweepStep(fq, FlipOrder(t));
      var n := Min(t.Remaining(), q[0].Remaining());
      var f := Fill(q[0].id, t.id, q[0].price, n, t.timestampNs);
      if n == q[0].Remaining() {
        FlipSweep(q[1..], t.Execute(n));
        FlipAfter(f, Sweep(q[1..], t.Execute(n)));
      } else {
        FlipCons(f, [], q[0].Execute(n), q[1..]);
        assert [f] + [] == [f];
      }
    }
  }

  lemma FlipNothing()
    ensures FlipFills([]) == []
  {}

  lemma {:induction false} FlipCrossing(q: seq<Order>, t: Order)
    requires Live(q) && Live(FlipQueue(q))
    ensures Crossing(FlipQueue(q), FlipOrder(t)) == Crossing(q, t)
  {
    if q != [] {
      assert FlipQueue(q)[1..] == FlipQueue(q[1..]);
      FlipCrossing(q[1..], t);
    }
  }

  lemma {:induction false} FlipMatch(q: seq<Order>, t: Order)
    requires Live(q) && Live(FlipQueue(q)) && (t.timeInForce.FOK? ==> t.filledQuantity <= t.quantity)
    ensures Match(FlipQueue(q), FlipOrder(t)) == FlipSwept(Match(q, t))
  {
    FlipSweep(q, t);
    FlipCrossing(q, t);
  }

  lemma {:induction false} FlipTwice(q: seq<Order>)
    ensures FlipQueue(FlipQueue(q)) == q
  {
    if q != [] {
      FlipTwice(q[1..]);
      FlipHead(q);
    }
  }

  /** Mirroring twice changes nothing. */
  lemma FlipIsInvolution(b: Book, o: Order)
    ensures FlipBook(FlipBook(b)) == b && FlipOrder(FlipOrder(o)) == o
  {
    FlipTwice(b.bids);
    FlipTwice(b.asks);
  }

  /** An order may be submitted exactly if its mirror image may be to the mirrored book. */
  lemma AdmissibleCommutesWithFlip(b: Book, o: Order)
    requires Inv(b)
    ensures Inv(FlipBook(b)) && (Admissible(b, o) <==> Admissible(FlipBook(b), FlipOrder(o)))
  {
    hide Inv, Admissible, FlipBook, FlipOrder;
    FlipInv(b);
    FlipIsInvolution(b, o);
    if Admissible(b, o) { FlipAdmissible(b, o); }
    if Admissible(FlipBook(b), FlipOrder(o)) { FlipAdmissible(FlipBook(b), FlipOrder(o)); }
  }

  lemma FlipAdmissible(b: Book, o: Order)
    requires Inv(b) && Admissible(b, o)
    ensures Inv(FlipBook(b)) && Admissible(FlipBook(b), FlipOrder(o))
  {
    hide Match, FlipQueue, FlipFills, Ids, Liquidity, Sorted, Distinct, Resting;
    FlipInv(b);
    FlipQueueFacts(b.bids);
    FlipQueueFacts(b.asks);
    FlipMatch(b.Queue(o.side.Opposite()), o);
    MatchKeepsInv(b, o);
  }

  lemma FlipSettle(b: Book, o: Order, m: Swept)
    requires m.taker.side == o.side
    ensures Settle(FlipBook(b), FlipOrder(o), FlipSwept(m)) == FlipBook(Settle(b, o, m))
  {
    FlipEnqueue(b.Queue(o.side), m.taker);
  }

  /** Inserting the mirrored order into the mirrored book gives the mirrored fills
      and the mirrored book. */
  lemma InsertCommutesWithFlip(b: Book, o: Order, now: U64)
    requires Inv(b) && Admissible(b, o)
    ensures Inv(FlipBook(b)) && Admissible(FlipBook(b), FlipOrder(o))
    ensures var r, f := Insert(b, o, now), Insert(FlipBook(b), FlipOrder(o), now);
      f.book == FlipBook(r.book) && f.fills == FlipFills(r.fills)
  {
    FlipAdmissible(b, o);
    var q := b.Queue(o.side.Opposite());
    FlipMatch(q, o);
    MatchKeepsInv(b, o);
    FlipSettle(b, o, Match(q, o));
    hide Match, Settle, FlipQueue, FlipFills;
  }

  lemma CancelCommutesWithFlip(b: Book, id: OrderId)
    requires Inv(b)
    ensures Cancel(FlipBook(b), id) == FlipBook(Cancel(b, id))
    ensures var c := Cancelled(b, id); Cancelled(FlipBook(b), id) == if c.None? then None else Some(FlipOrder(c.value))
  {
    FlipRemove(b.bids, id);
    FlipRemove(b.asks, id);
    FlipQueueFacts(b.bids);
    FlipQueueFacts(b.asks);
    if id !in Ids(b.bids) { RemoveAbsent(b.bids, id); }
    if id !in Ids(b.asks) { RemoveAbsent(b.asks, id); }
  }

  lemma BestPricesCommuteWithFlip(b: Book)
    ensures BestPrice(FlipBook(b).bids) == (if b.asks == [] then None else Some(FlipPrice(b.asks[0].price)))
    ensures BestPrice(FlipBook(b).asks) == (if b.bids == [] then None else Some(FlipPrice(b.bids[0].price)))
  {}
}
