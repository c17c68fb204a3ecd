/** First in, first out over whole runs: in every reachable book the orders at one
    price stand in the order in which they were submitted. */
module TimePriority {
  import opened Orders
  import opened NaiveBook
  import opened QueueLemmas
  import opened BookInvariant

  predicate Submits(op: Op, id: OrderId) {
    op.InsertOp? && op.order.id == id
  }

  /** The place in the run of the latest submission under an id, or -1. */
  function LastSubmission(ops: seq<Op>, id: OrderId): (k: int)
    ensures -1 <= k < |ops| && (k >= 0 ==> Submits(ops[k], id))
    ensures forall j :: k < j < |ops| ==> !Submits(ops[j], id)
  {
    if ops == [] then -1
    else if Submits(ops[|ops| - 1], id) then |ops| - 1
    else LastSubmission(ops[..|ops| - 1], id)
  }

  /** The resting order is the one latest submitted under its id, further filled. */
  predicate Origin(ops: seq<Op>, o: Order) {
    var k := LastSubmission(ops, o.id);
    && 0 <= k < |ops|
    && o == ops[k].order.(filledQuantity := o.filledQuantity)
    && ops[k].order.filledQuantity <= o.filledQuantity
  }

  /** Every order was submitted, and before all orders behind it at its price. */
  predicate Aged(ops: seq<Op>, q: seq<Order>) {
    q == [] ||
    (&& Origin(ops, q[0])
     && (forall o :: o in q[1..] && o.price == q[0].price ==> LastSubmission(ops, q[0].id) < LastSubmission(ops, o.id))
     && Aged(ops, q[1..]))
  }

  lemma {:induction false} AgedPairwise(ops: seq<Op>, q: seq<Order>, i: nat, j: nat)
    requires Aged(ops, q) && i <= j < |q|
    ensures Origin(ops, q[i]) && Origin(ops, q[j])
    ensures i < j && q[i].price == q[j].price ==> LastSubmission(ops, q[i].id) < LastSubmission(ops, q[j].id)
  {
    hide Origin, LastSubmission;
    if i > 0 {
      AgedPairwise(ops, q[1..], i - 1, j - 1);
    } else if j > 0 {
      assert q[j] in q[1..];
      AgedPairwise(ops, q[1..], 0, j - 1);
    }
  }

  // ---------------------------------------------------------------------
  // One operation
  // ---------------------------------------------------------------------

  /** A further operation that submits none of the queue's ids changes no age. */
  lemma {:induction false} AgedLater(ops: seq<Op>, op: Op, q: seq<Order>)
    requires Aged(ops, q) && (op.InsertOp? ==> op.order.id !in Ids(q))
    ensures Aged(ops + [op], q)
  {
    assert (ops + [op])[..|ops|] == ops;
    if q != [] {
      AgedLater(ops, op, q[1..]);
      forall o | o in q[1..] ensures LastSubmission(ops + [op], o.id) == LastSubmission(ops, o.id) {
        IdsMembers(q[1..], o.id);
      }
    }
  }

  lemma {:induction false} AgedRemove(ops: seq<Op>, q: seq<Order>, id: OrderId)
    requires Aged(ops, q)
    ensures Aged(ops, Remove(q, id)) && forall o :: o in Remove(q, id) ==> o in q
  {
    hide Origin, LastSubmission;
    if q != [] {
      AgedRemove(ops, q[1..], id);
      if q[0].id != id { assert Remove(q, id)[1..] == Remove(q[1..], id); }
    }
  }

  lemma {:induction false} AgedSurviving(ops: seq<Op>, q: seq<Order>, now: U64)
    requires Aged(ops, q)
    ensures Aged(ops, Surviving(q, now))
  {
    hide Origin, LastSubmission;
    if q != [] {
      AgedSurviving(ops, q[1..], now);
      SurvivingMembers(q[1..], now);
      if !Expired(q[0], now) { assert Surviving(q, now)[1..] == Surviving(q[1..], now); }
    }
  }

  lemma {:induction false} AgedSweep(ops: seq<Op>, q: seq<Order>, t: Order)
    requires Live(q) && Aged(ops, q)
    ensures Aged(ops, Sweep(q, t).rest)
  {
    hide LastSubmission;
    if q != [] && !t.IsFilled() && Reaches(t, q[0].price) {
      var n := Min(t.Remaining(), q[0].Remaining());
      if n == q[0].Remaining() {
        AgedSweep(ops, q[1..], t.Execute(n));
      } else {
        var r := [q[0].Execute(n)] + q[1..];
        assert r[1..] == q[1..] && r[0].id == q[0].id && r[0].price == q[0].price;
      }
    }
  }

  /** The newest order goes behind every order of its price. */
  lemma {:induction false} AgedEnqueue(ops: seq<Op>, q: seq<Order>, o: Order)
    requires Aged(ops, q) && Origin(ops, o) && Sorted(o.side, q)
    requires 0 <= LastSubmission(ops, o.id) == |ops| - 1 && o.id !in Ids(q)
    ensures Aged(ops, Enqueue(q, o))
  {
    hide Origin, Ids, LastSubmission;
    var e := Enqueue(q, o);
    if q == [] || Better(o.side, o.price, q[0].price) {
      assert e[1..] == q;
      SortedPairwise(o.side, q);
    } else {
      TailIds(q);
      OlderThanNewest(ops, q, o.id);
      AgedEnqueue(ops, q[1..], o);
      var k := Place(q[1..], o);
      assert e[1..] == Enqueue(q[1..], o) == q[1..][..k] + [o] + q[1..][k..];
      forall x | x in e[1..] && x.price == q[0].price
        ensures LastSubmission(ops, q[0].id) < LastSubmission(ops, x.id)
      {
        assert x == o || x in q[1..];
      }
    }
  }

  lemma {:induction false} TailIds(q: seq<Order>)
    requires q != []
    ensures Ids(q[1..]) <= Ids(q) && q[0].id in Ids(q)
  {}

  lemma {:induction false} OlderThanNewest(ops: seq<Op>, q: seq<Order>, id: OrderId)
    requires q != [] && 0 <= LastSubmission(ops, id) == |ops| - 1 && id !in Ids(q)
    ensures LastSubmission(ops, q[0].id) < LastSubmission(ops, id)
  {
    assert Submits(ops[|ops| - 1], id);
  }

  ghost predicate BookAged(ops: seq<Op>, b: Book) {
    Aged(ops, b.bids) && Aged(ops, b.asks)
  }

  lemma InsertKeepsAge(ops: seq<Op>, b: Book, o: Order, now: U64)
    requires Inv(b) && Admissible(b, o) && BookAged(ops, b)
    ensures BookAged(ops + [InsertOp(o, now)], Insert(b, o, now).book)
  {
    hide Ids, Sorted, Distinct, Resting, Liquidity, Sweep, Enqueue, Aged, LastSubmission;
    var more := ops + [InsertOp(o, now)];
    AgedLater(ops, InsertOp(o, now), b.bids);
    AgedLater(ops, InsertOp(o, now), b.asks);
    var q, own := b.Queue(o.side.Opposite()), b.Queue(o.side);
    AgedSweep(more, q, o);
    MatchKeepsInv(b, o);
    var t := Match(q, o).taker;
    NewestOrigin(ops, o, now, t);
    AgedEnqueue(more, own, t);
  }

  lemma NewestOrigin(ops: seq<Op>, o: Order, now: U64, t: Order)
    requires t == o.(filledQuantity := t.filledQuantity) && o.filledQuantity <= t.filledQuantity
    ensures var more := ops + [InsertOp(o, now)]; Origin(more, t) && LastSubmission(more, t.id) == |more| - 1
  {}

  lemma ApplyKeepsAge(ops: seq<Op>, b: Book, op: Op)
    requires Inv(b) && Allowed(b, op) && BookAged(ops, b)
    ensures BookAged(ops + [op], Apply(b, op))
  {
    hide Inv, Insert, Aged;
    if op.InsertOp? {
      InsertKeepsAge(ops, b, op.order, op.now);
    } else {
      AgedLater(ops, op, b.bids);
      AgedLater(ops, op, b.asks);
      AgedNothing(ops + [op]);
      match op
      case CancelOp(id) =>
        AgedRemove(ops + [op], b.bids, id);
        AgedRemove(ops + [op], b.asks, id);
      case PurgeOp(now) =>
        AgedSurviving(ops + [op], b.bids, now);
        AgedSurviving(ops + [op], b.asks, now);
      case _ =>
    }
  }

  lemma {:induction false} AgedNothing(ops: seq<Op>)
    ensures Aged(ops, [])
  {}

  // ---------------------------------------------------------------------
  // Runs
  // ---------------------------------------------------------------------

  lemma {:induction false} RunKeepsAge(ops: seq<Op>)
    requires AllowedRun(EMPTY, ops)
    ensures BookAged(ops, Run(EMPTY, ops))
    decreases |ops|
  {
    hide Inv, AllowedRun, Run, Apply, Allowed, Aged;
    EmptyHasInv();
    AgedNothing(ops);
    if ops == [] {
      RunEnd(EMPTY, ops);
    } else {
      var n := |ops| - 1;
      RunSnoc(EMPTY, ops);
      RunKeepsAge(ops[..n]);
      ApplyKeepsAge(ops[..n], Run(EMPTY, ops[..n]), ops[n]);
      assert ops[..n] + [ops[n]] == ops;
    }
  }

  /** The orders at one price were submitted in the order in which they stand. */
  predicate InArrivalOrder(ops: seq<Op>, q: seq<Order>) {
    forall i, j :: 0 <= i < j < |q| && q[i].price == q[j].price ==>
      LastSubmission(ops, q[i].id) < LastSubmission(ops, q[j].id)
  }

  /** In every reachable book each resting order is the one latest submitted under its
      id, further filled, and orders at one price stand in the order of submission. */
  lemma {:induction false} ReachableBookIsInArrivalOrder(ops: seq<Op>)
    requires AllowedRun(EMPTY, ops)
    ensures var b := Run(EMPTY, ops);
      && InArrivalOrder(ops, b.bids) && InArrivalOrder(ops, b.asks)
      && forall o :: o in b.bids + b.asks ==> Origin(ops, o)
  {
    hide Run, Aged, Origin, LastSubmission;
    RunKeepsAge(ops);
    QueueInArrivalOrder(ops, Run(EMPTY, ops).bids);
    QueueInArrivalOrder(ops, Run(EMPTY, ops).asks);
  }

  lemma {:induction false} QueueInArrivalOrder(ops: seq<Op>, q: seq<Order>)
    requires Aged(ops, q)
    ensures InArrivalOrder(ops, q) && forall o :: o in q ==> Origin(ops, o)
  {
    hide Aged, Origin, LastSubmission;
    forall i, j | 0 <= i < j < |q| && q[i].price == q[j].price
      ensures LastSubmission(ops, q[i].id) < LastSubmission(ops, q[j].id)
    {
      AgedPairwise(ops, q, i, j);
    }
    forall o | o in q ensures Origin(ops, o) {
      var i :| 0 <= i < |q| && q[i] == o;
      AgedPairwise(ops, q, i, i);
    }
  }
}
