/** Nothing is lost over whole runs: the lots submitted under an id are the lots that
    traded, as taker and as maker, that were withdrawn, and that still rest. */
module Conservation {
  import opened Orders
  import opened NaiveBook
  import opened QueueLemmas
  import opened BookInvariant
  import opened MatchingTheorems

  // ---------------------------------------------------------------------
  // What is counted
  // ---------------------------------------------------------------------

  /** What of an order is still to trade. */
  function OpenLots(o: Order): nat {
    if o.IsFilled() then 0 else o.Remaining()
  }

  /** Lots in a list of orders under an id. */
  function Lots(q: seq<Order>, id: OrderId): nat {
    if q == [] then 0 else (if q[0].id == id then OpenLots(q[0]) else 0) + Lots(q[1..], id)
  }

  function Held(b: Book, id: OrderId): nat {
    Lots(b.bids, id) + Lots(b.asks, id)
  }

  /** Quantity taker `id` traded. */
  function Took(fs: seq<Fill>, id: OrderId): nat {
    if fs == [] then 0 else (if fs[0].takerId == id then fs[0].quantity else 0) + Took(fs[1..], id)
  }

  /** Lots an operation brings in under an id. */
  function Entered(op: Op, id: OrderId): nat {
    if op.InsertOp? && op.order.id == id then OpenLots(op.order) else 0
  }

  /** Lots under an id that traded, going by a reply. */
  function TradedIn(reply: Reply, id: OrderId): nat {
    if reply.Fills? then Took(reply.fills, id) + Got(reply.fills, id) else 0
  }

  /** Lots under an id that leave without trading: what an order that may not rest or
      has expired does not trade, and what is cancelled or purged. */
  ghost function Withdrawn(b: Book, op: Op, id: OrderId): nat
    requires Inv(b) && Allowed(b, op)
  {
    match op
    case InsertOp(o, now) =>
      TradesAtMost(b, o, now);
      if o.id == id && (ExpiredOnEntry(o, now) || !o.Rests()) then OpenLots(o) - Traded(Insert(b, o, now).fills) else 0
    case CancelOp(c) =>
      var gone := Cancelled(b, c);
      if gone.Some? && gone.value.id == id then OpenLots(gone.value) else 0
    case PurgeOp(now) => Lots(Expiring(b.bids, now), id) + Lots(Expiring(b.asks, now), id)
    case CancelSideOp(s) => Lots(b.Queue(s), id)
    case CancelAllOp => Held(b, id)
  }

  /** An order trades no more than is open of it. */
  lemma TradesAtMost(b: Book, o: Order, now: U64)
    requires Inv(b) && Admissible(b, o)
    ensures Traded(Insert(b, o, now).fills) <= OpenLots(o)
  {
    hide Sweep, Crossing, Enqueue, Sorted, Distinct, Resting, Liquidity, Ids;
    SweepKeepsTaker(b.Queue(o.side.Opposite()), o);
  }

  // ---------------------------------------------------------------------
  // One operation
  // ---------------------------------------------------------------------

  lemma {:induction false} LotsOfSweep(q: seq<Order>, t: Order, id: OrderId)
    requires Live(q)
    ensures var r := Sweep(q, t);
      && Live(r.rest) && Lots(q, id) == Lots(r.rest, id) + Got(r.fills, id)
      && Took(r.fills, id) == if t.id == id then Traded(r.fills) else 0
  {
    SweepExhausts(q, t);
    if q == [] || t.IsFilled() || !Reaches(t, q[0].price) {
      SweepStops(q, t);
    } else {
      SweepStep(q, t);
      var n := Min(t.Remaining(), q[0].Remaining());
      var f := Fill(q[0].id, t.id, q[0].price, n, t.timestampNs);
      if n == q[0].Remaining() {
        LotsOfSweep(q[1..], t.Execute(n), id);
        var fs := Sweep(q[1..], t.Execute(n)).fills;
        FillCounts(f, fs, id);
      } else {
        FillCounts(f, [], id);
        assert ([q[0].Execute(n)] + q[1..])[1..] == q[1..];
        assert [f] + [] == [f];
      }
    }
  }

  lemma {:induction false} FillCounts(f: Fill, fs: seq<Fill>, id: OrderId)
    ensures Got([f] + fs, id) == (if f.makerId == id then f.quantity else 0) + Got(fs, id)
    ensures Took([f] + fs, id) == (if f.takerId == id then f.quantity else 0) + Took(fs, id)
    ensures Traded([f] + fs) == f.quantity + Traded(fs)
    ensures Got([], id) == Took([], id) == Traded([]) == 0
  {
    assert ([f] + fs)[1..] == fs;
  }

  lemma {:induction false} LotsOfEnqueue(q: seq<Order>, o: Order, id: OrderId)
    ensures var e := Enqueue(q, o);
      Lots(e, id) == Lots(q, id) + if o.id == id then OpenLots(o) else 0
  {
    var e := Enqueue(q, o);
    if q == [] || Better(o.side, o.price, q[0].price) {
      assert e[1..] == q;
    } else {
      LotsOfEnqueue(q[1..], o, id);
      assert e[1..] == Enqueue(q[1..], o);
    }
  }

  lemma {:induction false} LotsOfRemove(q: seq<Order>, c: OrderId, id: OrderId)
    requires Distinct(q)
    ensures var gone := Find(q, c);
      && (gone.Some? ==> gone.value.id == c)
      && Lots(q, id) == Lots(Remove(q, c), id) + if gone.Some? && c == id then OpenLots(gone.value) else 0
  {
    if q != [] && q[0].id != c {
      LotsOfRemove(q[1..], c, id);
      assert Remove(q, c)[1..] == Remove(q[1..], c);
    }
  }

  lemma {:induction false} LotsOfPurge(q: seq<Order>, now: U64, id: OrderId)
    ensures Lots(q, id) == Lots(Surviving(q, now), id) + Lots(Expiring(q, now), id)
  {
    if q != [] {
      LotsOfPurge(q[1..], now, id);
      if Expired(q[0], now) {
        assert Expiring(q, now)[1..] == Expiring(q[1..], now);
      } else {
        assert Surviving(q, now)[1..] == Surviving(q[1..], now);
      }
    }
  }

  lemma {:induction false} MatchConserves(q: seq<Order>, o: Order, id: OrderId)
    requires Live(q) && (o.timeInForce.FOK? ==> o.filledQuantity <= o.quantity)
    ensures var m := Match(q, o);
      && Lots(q, id) == Lots(m.rest, id) + Got(m.fills, id)
      && Took(m.fills, id) == (if o.id == id then Traded(m.fills) else 0)
      && m.taker.id == o.id && m.taker.side == o.side && OpenLots(m.taker) == OpenLots(o) - Traded(m.fills)
  {
    hide Sweep, Crossing;
    LotsOfSweep(q, o, id);
    SweepKeepsTaker(q, o);
    FillCounts(Fill(0, 0, 0, 0, 0), [], id);
  }

  /** What an insertion does to the lots under an id. */
  lemma InsertConserves(b: Book, o: Order, now: U64, id: OrderId)
    requires Inv(b) && Admissible(b, o)
    ensures var r := Insert(b, o, now);
      Held(b, id) + Entered(InsertOp(o, now), id) ==
      Held(r.book, id) + TradedIn(Fills(r.fills), id) + Withdrawn(b, InsertOp(o, now), id)
  {
    hide Match, Enqueue, Sorted, Distinct, Resting, Liquidity, Ids, OpenLots, Lots, Took, Got, Traded;
    var own := b.Queue(o.side);
    FillCounts(Fill(0, 0, 0, 0, 0), [], id);
    MatchConserves(b.Queue(o.side.Opposite()), o, id);
    LotsOfEnqueue(own, Match(b.Queue(o.side.Opposite()), o).taker, id);
    NothingOpen(Match(b.Queue(o.side.Opposite()), o).taker);
  }

  lemma NothingOpen(o: Order)
    ensures o.IsFilled() ==> OpenLots(o) == 0
  {}

  lemma CancelConserves(b: Book, c: OrderId, id: OrderId)
    requires Inv(b)
    ensures Held(b, id) == Held(Cancel(b, c), id) + Withdrawn(b, CancelOp(c), id)
  {
    hide Sorted, Resting, Liquidity, Ids;
    LotsOfRemove(b.bids, c, id);
    LotsOfRemove(b.asks, c, id);
    if c in Ids(b.bids) {
      var k := FindSplits(b.bids, c);
      RemoveAbsent(b.asks, c);
    } else {
      RemoveAbsent(b.bids, c);
    }
  }

  /** Every operation balances, id by id. */
  lemma StepConserves(b: Book, op: Op, id: OrderId)
    requires Inv(b) && Allowed(b, op)
    ensures Inv(Apply(b, op))
    ensures Held(b, id) + Entered(op, id) ==
            Held(Apply(b, op), id) + TradedIn(Answer(b, op), id) + Withdrawn(b, op, id)
  {
    ApplyKeepsInv(b, op);
    hide Insert, Cancel, Sorted, Distinct, Resting, Liquidity, Ids, Took, Got, OpenLots;
    match op
    case InsertOp(o, now) => InsertConserves(b, o, now, id);
    case CancelOp(c) => CancelConserves(b, c, id);
    case PurgeOp(now) =>
      LotsOfPurge(b.bids, now, id);
      LotsOfPurge(b.asks, now, id);
    case CancelSideOp(s) =>
    case CancelAllOp =>
  }

  // ---------------------------------------------------------------------
  // Runs
  // ---------------------------------------------------------------------

  function EnteredInAll(ops: seq<Op>, id: OrderId): nat {
    if ops == [] then 0 else Entered(ops[0], id) + EnteredInAll(ops[1..], id)
  }

  function TradedInAll(replies: seq<Reply>, id: OrderId): nat {
    if replies == [] then 0 else TradedIn(replies[0], id) + TradedInAll(replies[1..], id)
  }

  ghost function WithdrawnInAll(b: Book, ops: seq<Op>, id: OrderId): nat
    requires Inv(b) && AllowedRun(b, ops)
    decreases |ops|
  {
    if ops == [] then 0
    else ApplyKeepsInv(b, ops[0]); Withdrawn(b, ops[0], id) + WithdrawnInAll(Apply(b, ops[0]), ops[1..], id)
  }

  /** Over any allowed run, id by id: what was held and what was submitted is what is
      held at the end, what traded and what was withdrawn. */
  lemma {:induction false} RunConserves(b: Book, ops: seq<Op>, id: OrderId)
    requires Inv(b) && AllowedRun(b, ops)
    ensures Held(b, id) + EnteredInAll(ops, id) ==
            Held(Run(b, ops), id) + TradedInAll(Replies(b, ops), id) + WithdrawnInAll(b, ops, id)
    decreases |ops|
  {
    hide Held, Entered, TradedIn, Withdrawn, Apply, Answer, Allowed, QueueOk;
    if ops != [] {
      StepConserves(b, ops[0], id);
      RunStep(b, ops);
      var b1, later := Apply(b, ops[0]), ops[1..];
      RunConserves(b1, later, id);
      assert Replies(b, ops)[1..] == Replies(b1, later);
    }
  }

  /** The order at place `k` of the run is the only one submitted under its id. */
  predicate SubmittedOnce(ops: seq<Op>, k: nat) {
    && k < |ops| && ops[k].InsertOp?
    && forall j :: 0 <= j < |ops| && j != k && ops[j].InsertOp? ==> ops[j].order.id != ops[k].order.id
  }

  lemma {:induction false} EnteredElsewhere(ops: seq<Op>, id: OrderId)
    requires forall j :: 0 <= j < |ops| && ops[j].InsertOp? ==> ops[j].order.id != id
    ensures EnteredInAll(ops, id) == 0
  {
    if ops != [] { EnteredElsewhere(ops[1..], id); }
  }

  lemma {:induction false} EnteredOnce(ops: seq<Op>, k: nat)
    requires SubmittedOnce(ops, k)
    ensures EnteredInAll(ops, ops[k].order.id) == Entered(ops[k], ops[k].order.id)
  {
    var id := ops[k].order.id;
    if k == 0 {
      EnteredElsewhere(ops[1..], id);
    } else {
      assert ops[1..][k - 1] == ops[k];
      EnteredOnce(ops[1..], k - 1);
    }
  }

  /** Every lot of an order accounted for: over any allowed run from an empty book that
      does not reuse its id, what it traded as taker and as maker, what was withdrawn of
      it and what rests of it at the end add up to its remainder at submission. */
  lemma {:induction false} EveryLotIsAccountedFor(ops: seq<Op>, k: nat)
    requires AllowedRun(EMPTY, ops) && SubmittedOnce(ops, k)
    ensures var o := ops[k].order;
      OpenLots(o) == Held(Run(EMPTY, ops), o.id)
                     + TradedInAll(Replies(EMPTY, ops), o.id)
                     + WithdrawnInAll(EMPTY, ops, o.id)
  {
    hide AllowedRun, Run, Replies, WithdrawnInAll, TradedInAll, EnteredInAll;
    RunConserves(EMPTY, ops, ops[k].order.id);
    EnteredOnce(ops, k);
  }
}
