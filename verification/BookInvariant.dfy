/** Every operation keeps the book invariant, so every reachable book has it. */
module BookInvariant {
  import opened Orders
  import opened NaiveBook
  import opened QueueLemmas

  /** An order that would rest has nothing left to trade with. */
  lemma MatchKeepsInv(b: Book, o: Order)
    requires Inv(b) && Admissible(b, o)
    ensures var m := Match(b.Queue(o.side.Opposite()), o); var b1 := b.With(o.side.Opposite(), m.rest);
      && Inv(b1) && Ids(m.rest) <= Ids(b.Queue(o.side.Opposite()))
      && m.taker == o.(filledQuantity := m.taker.filledQuantity)
      && o.filledQuantity <= m.taker.filledQuantity
      && (!m.taker.IsFilled() && o.Rests() && m.rest != [] ==> !Reaches(o, m.rest[0].price))
  {
    var q := b.Queue(o.side.Opposite());
    SweepOk(o.side.Opposite(), q, o);
    SweepKeepsTaker(q, o);
    SweepExhausts(q, o);
  }

  lemma {:induction false} RestKeepsInv(b: Book, o: Order)
    requires Inv(b) && o.Rests() && o.filledQuantity < o.quantity && o.id !in Ids(b.bids) + Ids(b.asks)
    requires Liquidity(b.Queue(o.side)) + o.Remaining() <= U64_MAX
    requires var q := b.Queue(o.side.Opposite()); q != [] ==> !Reaches(o, q[0].price)
    ensures var e := Enqueue(b.Queue(o.side), o);
      Inv(b.With(o.side, e)) && Ids(e) == Ids(b.Queue(o.side)) + {o.id}
  {
    hide QueueOk;
    EnqueueOk(o.side, b.Queue(o.side), o);
  }

  lemma InsertKeepsInv(b: Book, o: Order, now: U64)
    requires Inv(b) && Admissible(b, o)
    ensures Inv(Insert(b, o, now).book)
    ensures var b1 := Insert(b, o, now).book; Ids(b1.bids) + Ids(b1.asks) <= Ids(b.bids) + Ids(b.asks) + {o.id}
  {
    MatchKeepsInv(b, o);
    var m := Match(b.Queue(o.side.Opposite()), o);
    var b1 := b.With(o.side.Opposite(), m.rest);
    if !m.taker.IsFilled() && o.Rests() && !ExpiredOnEntry(o, now) {
      assert b1.Queue(o.side) == b.Queue(o.side);
      RestKeepsInv(b1, m.taker);
    }
  }

  lemma CancelKeepsInv(b: Book, id: OrderId)
    requires Inv(b)
    ensures Inv(Cancel(b, id))
    ensures Ids(Cancel(b, id).bids) + Ids(Cancel(b, id).asks) == Ids(b.bids) + Ids(b.asks) - {id}
  {
    RemoveOk(Bid, b.bids, id);
    RemoveOk(Ask, b.asks, id);
    RemoveFront(Bid, b.bids, id);
    RemoveFront(Ask, b.asks, id);
  }

  lemma {:induction false} RemoveFront(s: Side, q: seq<Order>, id: OrderId)
    requires Sorted(s, q)
    ensures Remove(q, id) != [] ==> q != [] && !Better(s, Remove(q, id)[0].price, q[0].price)
  {}

  lemma PurgeKeepsInv(b: Book, now: U64)
    requires Inv(b)
    ensures Inv(Purge(b, now))
  {
    SurvivingOk(Bid, b.bids, now);
    SurvivingOk(Ask, b.asks, now);
  }

  lemma ApplyKeepsInv(b: Book, op: Op)
    requires Inv(b) && Allowed(b, op)
    ensures Inv(Apply(b, op))
  {
    match op
    case InsertOp(o, now) => InsertKeepsInv(b, o, now);
    case CancelOp(id) => CancelKeepsInv(b, id);
    case PurgeOp(now) => PurgeKeepsInv(b, now);
    case CancelSideOp(s) =>
    case CancelAllOp =>
  }

  // ---------------------------------------------------------------------
  // Runs
  // ---------------------------------------------------------------------

  /** Every operation of the run is allowed where it happens. */
  ghost predicate AllowedRun(b: Book, ops: seq<Op>)
    requires Inv(b)
    decreases |ops|
  {
    ops == [] ||
    (Allowed(b, ops[0]) && (ApplyKeepsInv(b, ops[0]); AllowedRun(Apply(b, ops[0]), ops[1..])))
  }

  ghost function Run(b: Book, ops: seq<Op>): (r: Book)
    requires Inv(b) && AllowedRun(b, ops)
    ensures Inv(r)
    decreases |ops|
  {
    if ops == [] then b
    else ApplyKeepsInv(b, ops[0]); Run(Apply(b, ops[0]), ops[1..])
  }

  ghost function Replies(b: Book, ops: seq<Op>): (r: seq<Reply>)
    requires Inv(b) && AllowedRun(b, ops)
    ensures |r| == |ops|
    decreases |ops|
  {
    if ops == [] then []
    else ApplyKeepsInv(b, ops[0]); [Answer(b, ops[0])] + Replies(Apply(b, ops[0]), ops[1..])
  }

  /** A run is its first operation and then the rest. */
  lemma {:induction false} RunStep(b: Book, ops: seq<Op>)
    requires Inv(b) && ops != [] && AllowedRun(b, ops)
    ensures Allowed(b, ops[0]) && Inv(Apply(b, ops[0])) && AllowedRun(Apply(b, ops[0]), ops[1..])
    ensures Run(b, ops) == Run(Apply(b, ops[0]), ops[1..])
    ensures Replies(b, ops) == [Answer(b, ops[0])] + Replies(Apply(b, ops[0]), ops[1..])
  {
    hide Inv, Apply, Answer, Allowed;
    ApplyKeepsInv(b, ops[0]);
  }

  /** A run is all but its last operation and then that one. */
  lemma {:induction false} RunSnoc(b: Book, ops: seq<Op>)
    requires Inv(b) && ops != [] && AllowedRun(b, ops)
    ensures var n := |ops| - 1;
      && AllowedRun(b, ops[..n]) && Allowed(Run(b, ops[..n]), ops[n])
      && Run(b, ops) == Apply(Run(b, ops[..n]), ops[n])
    decreases |ops|
  {
    hide Inv, Apply, Allowed;
    var n := |ops| - 1;
    RunStep(b, ops);
    if n > 0 {
      var b1 := Apply(b, ops[0]);
      RunSnoc(b1, ops[1..]);
      assert ops[1..][..n - 1] == ops[..n][1..] && ops[..n][0] == ops[0];
    }
  }

  lemma {:induction false} RunEnd(b: Book, ops: seq<Op>)
    requires Inv(b) && ops == [] && AllowedRun(b, ops)
    ensures Run(b, ops) == b && Replies(b, ops) == []
  {}

  lemma EmptyHasInv()
    ensures Inv(EMPTY)
  {}

  /** The invariant read pairwise: nothing filled rests, queues are in price order,
      no id occurs twice, and every bid is strictly below every ask. */
  predicate Sound(b: Book) {
    && (forall i :: 0 <= i < |b.bids| ==>
          b.bids[i].filledQuantity < b.bids[i].quantity && b.bids[i].side == Bid && b.bids[i].Rests())
    && (forall i :: 0 <= i < |b.asks| ==>
          b.asks[i].filledQuantity < b.asks[i].quantity && b.asks[i].side == Ask && b.asks[i].Rests())
    && (forall i, j :: 0 <= i < j < |b.bids| ==> b.bids[i].price >= b.bids[j].price)
    && (forall i, j :: 0 <= i < j < |b.asks| ==> b.asks[i].price <= b.asks[j].price)
    && (forall i, j :: 0 <= i < j < |b.bids + b.asks| ==> (b.bids + b.asks)[i].id != (b.bids + b.asks)[j].id)
    && (forall i, j :: 0 <= i < |b.bids| && 0 <= j < |b.asks| ==> b.bids[i].price < b.asks[j].price)
  }

  lemma InvIsSound(b: Book)
    requires Inv(b)
    ensures Sound(b)
  {
    hide Ids, Liquidity;
    forall i | 0 <= i < |b.bids| ensures b.bids[i].side == Bid && b.bids[i].Rests() { RestingAt(Bid, b.bids, i); }
    forall i | 0 <= i < |b.asks| ensures b.asks[i].side == Ask && b.asks[i].Rests() { RestingAt(Ask, b.asks, i); }
    SortedPairwise(Bid, b.bids);
    SortedPairwise(Ask, b.asks);
    DistinctAppend(b.bids, b.asks);
    DistinctPairwise(b.bids + b.asks);
    forall i, j | 0 <= i < |b.bids| && 0 <= j < |b.asks| ensures b.bids[i].price < b.asks[j].price {
      assert b.bids[0].price >= b.bids[i].price && b.asks[0].price <= b.asks[j].price;
    }
  }

  /** Every reachable book is sound. */
  lemma {:induction false} ReachableBookIsSound(ops: seq<Op>)
    requires AllowedRun(EMPTY, ops)
    ensures Sound(Run(EMPTY, ops))
  {
    hide Run, Sound;
    InvIsSound(Run(EMPTY, ops));
  }

  // ---------------------------------------------------------------------
  // Cancelling
  // ---------------------------------------------------------------------

  /** Cancelling a resting id returns that order and takes it, at place `k` of its
      queue, and nothing else; cancelling any other id changes nothing. */
  lemma CancelExact(b: Book, id: OrderId) returns (k: nat)
    requires Inv(b)
    ensures var c, left := Cancelled(b, id), Cancel(b, id);
      if id in Ids(b.bids) then
        && k < |b.bids| && c == Some(b.bids[k]) && b.bids[k].id == id
        && left == Book(b.bids[..k] + b.bids[k + 1..], b.asks)
      else if id in Ids(b.asks) then
        && k < |b.asks| && c == Some(b.asks[k]) && b.asks[k].id == id
        && left == Book(b.bids, b.asks[..k] + b.asks[k + 1..])
      else c == None && left == b
  {
    k := 0;
    if id in Ids(b.bids) {
      k := FindSplits(b.bids, id);
      RemoveAbsent(b.asks, id);
    } else {
      RemoveAbsent(b.bids, id);
      if id in Ids(b.asks) { k := FindSplits(b.asks, id); } else { RemoveAbsent(b.asks, id); }
    }
  }
}
