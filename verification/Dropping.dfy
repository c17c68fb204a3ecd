/** Cancelling a list of ids one by one, as purge and cancel-all do. */
module Dropping {
  import opened Orders
  import opened NaiveBook
  import opened QueueLemmas

  /** The queue without the orders whose ids are in `dead`. */
  function Without(q: seq<Order>, dead: set<OrderId>): seq<Order> {
    if q == [] then []
    else if q[0].id in dead then Without(q[1..], dead)
    else [q[0]] + Without(q[1..], dead)
  }

  lemma {:induction false} WithoutNobody(q: seq<Order>, dead: set<OrderId>)
    requires Ids(q) !! dead
    ensures Without(q, dead) == q
  {
    if q != [] { WithoutNobody(q[1..], dead); }
  }

  lemma {:induction false} WithoutAbsent(q: seq<Order>, dead: set<OrderId>, id: OrderId)
    requires id !in Ids(q)
    ensures Without(q, dead + {id}) == Without(q, dead)
  {
    if q != [] { WithoutAbsent(q[1..], dead, id); }
  }

  lemma {:induction false} WithoutThenRemove(q: seq<Order>, dead: set<OrderId>, id: OrderId)
    requires Distinct(q)
    ensures Remove(Without(q, dead), id) == Without(q, dead + {id})
  {
    if q != [] {
      WithoutThenRemove(q[1..], dead, id);
      if q[0].id == id { WithoutAbsent(q[1..], dead, id); }
      if q[0].id in dead && q[0].id != id { assert q[0].id in dead + {id}; }
      if q[0].id in dead && q[0].id == id { WithoutAbsent(q[1..], dead, id); }
    }
  }

  lemma {:induction false} WithoutFinds(q: seq<Order>, dead: set<OrderId>, id: OrderId)
    requires id !in dead
    ensures Find(Without(q, dead), id) == Find(q, id)
    ensures id in Ids(Without(q, dead)) <==> id in Ids(q)
  {
    if q != [] { WithoutFinds(q[1..], dead, id); }
  }

  lemma {:induction false} WithoutExpired(q: seq<Order>, dead: set<OrderId>, now: U64)
    requires forall i :: 0 <= i < |q| ==> (q[i].id in dead <==> Expired(q[i], now))
    ensures Without(q, dead) == Surviving(q, now)
  {
    if q != [] {
      assert q[0].id in dead <==> Expired(q[0], now);
      WithoutExpired(q[1..], dead, now);
    }
  }

  lemma {:induction false} WithoutAll(q: seq<Order>, dead: set<OrderId>)
    requires Ids(q) <= dead
    ensures Without(q, dead) == []
  {
    if q != [] { WithoutAll(q[1..], dead); }
  }

  lemma {:induction false} FindMember(q: seq<Order>, i: nat)
    requires Distinct(q) && i < |q|
    ensures Find(q, q[i].id) == Some(q[i]) && q[i].id in Ids(q)
  {
    IdsMembers(q, q[i].id);
    if i > 0 {
      FindMember(q[1..], i - 1);
      IdsMembers(q[1..], q[i].id);
    }
  }

  // ---------------------------------------------------------------------
  // Id lists
  // ---------------------------------------------------------------------

  function IdSet(ids: seq<OrderId>): set<OrderId> {
    set id | id in ids
  }

  lemma {:induction false} IdListFacts(q: seq<Order>)
    ensures |IdList(q)| == |q| && (forall i :: 0 <= i < |q| ==> IdList(q)[i] == q[i].id)
    ensures IdSet(IdList(q)) == Ids(q)
  {
    if q != [] {
      IdListFacts(q[1..]);
      assert IdList(q) == [q[0].id] + IdList(q[1..]);
      assert IdSet(IdList(q)) == {q[0].id} + IdSet(IdList(q[1..]));
    }
  }

  lemma {:induction false} IdListAppend(a: seq<Order>, b: seq<Order>)
    ensures IdList(a + b) == IdList(a) + IdList(b)
  {
    if a == [] {
      assert a + b == b;
    } else {
      assert (a + b)[1..] == a[1..] + b;
      IdListAppend(a[1..], b);
    }
  }

  lemma {:induction false} ExpiringAppend(a: seq<Order>, b: seq<Order>, now: U64)
    ensures Expiring(a + b, now) == Expiring(a, now) + Expiring(b, now)
  {
    if a == [] {
      assert a + b == b;
    } else {
      assert (a + b)[1..] == a[1..] + b;
      ExpiringAppend(a[1..], b, now);
    }
  }

  /** The expired orders of a queue keep distinct ids, all from the queue. */
  lemma {:induction false} ExpiringIds(q: seq<Order>, now: U64)
    requires Distinct(q)
    ensures Distinct(Expiring(q, now)) && Ids(Expiring(q, now)) <= Ids(q)
  {
    if q != [] { ExpiringIds(q[1..], now); }
  }

  /** Purging by id: dropping the ids of the expired orders of both sides leaves
      the survivors of each. */
  lemma {:induction false} DropExpired(b: Book, now: U64)
    requires Inv(b)
    ensures var dead := IdSet(IdList(Expiring(b.bids, now) + Expiring(b.asks, now)));
      Without(b.bids, dead) == Surviving(b.bids, now) && Without(b.asks, dead) == Surviving(b.asks, now)
  {
    IdListFacts(Expiring(b.bids, now) + Expiring(b.asks, now));
    IdsAppend(Expiring(b.bids, now), Expiring(b.asks, now));
    ExpiringIds(b.bids, now);
    ExpiringIds(b.asks, now);
    DeadAreExpired(b.bids, Ids(Expiring(b.asks, now)), now);
    DeadAreExpired(b.asks, Ids(Expiring(b.bids, now)), now);
    var dead := IdSet(IdList(Expiring(b.bids, now) + Expiring(b.asks, now)));
    assert dead == Ids(Expiring(b.bids, now)) + Ids(Expiring(b.asks, now));
    WithoutExpired(b.bids, dead, now);
    assert dead == Ids(Expiring(b.asks, now)) + Ids(Expiring(b.bids, now));
    WithoutExpired(b.asks, dead, now);
  }

  lemma {:induction false} DeadAreExpired(q: seq<Order>, others: set<OrderId>, now: U64)
    requires Distinct(q) && Ids(q) !! others
    ensures forall i :: 0 <= i < |q| ==> (q[i].id in Ids(Expiring(q, now)) + others <==> Expired(q[i], now))
  {
    if q != [] {
      DeadAreExpired(q[1..], others, now);
      ExpiringIds(q[1..], now);
      forall i | 0 <= i < |q|
        ensures q[i].id in Ids(Expiring(q, now)) + others <==> Expired(q[i], now)
      {
        IdsMembers(q[1..], q[i].id);
        if i > 0 { assert q[i] == q[1..][i - 1]; }
      }
    }
  }

  // ---------------------------------------------------------------------
  // Books
  // ---------------------------------------------------------------------

  /** The book after cancelling `ids`. */
  function BookWithout(b: Book, ids: seq<OrderId>): Book {
    Book(Without(b.bids, IdSet(ids)), Without(b.asks, IdSet(ids)))
  }

  lemma NothingDropped(b: Book)
    ensures BookWithout(b, []) == b
  {
    assert IdSet([]) == {};
    WithoutNobody(b.bids, {});
    WithoutNobody(b.asks, {});
  }

  lemma DropOne(b: Book, ids: seq<OrderId>, i: nat)
    requires Inv(b) && i < |ids|
    ensures Cancel(BookWithout(b, ids[..i]), ids[i]) == BookWithout(b, ids[..i + 1])
  {
    assert ids[..i + 1] == ids[..i] + [ids[i]];
    assert IdSet(ids[..i + 1]) == IdSet(ids[..i]) + {ids[i]};
    WithoutThenRemove(b.bids, IdSet(ids[..i]), ids[i]);
    WithoutThenRemove(b.asks, IdSet(ids[..i]), ids[i]);
  }

  /** Cancelling `ids` from left to right finds the orders `gone`, one each. */
  ghost predicate CancelsInTurn(b: Book, ids: seq<OrderId>, gone: seq<Order>) {
    && |ids| == |gone|
    && forall i :: 0 <= i < |ids| ==>
         && Cancelled(BookWithout(b, ids[..i]), ids[i]) == Some(gone[i])
         && Cancel(BookWithout(b, ids[..i]), ids[i]) == BookWithout(b, ids[..i + 1])
  }

  /** A purge cancels the expired orders in turn and nothing else. */
  lemma {:induction false} ExpiringCancelInTurn(b: Book, now: U64)
    requires Inv(b)
    ensures var gone := Expiring(b.bids, now) + Expiring(b.asks, now); CancelsInTurn(b, IdList(gone), gone)
  {
    var gone := Expiring(b.bids, now) + Expiring(b.asks, now);
    var ids := IdList(gone);
    IdListFacts(gone);
    ExpiringIds(b.bids, now);
    ExpiringIds(b.asks, now);
    DistinctAppend(Expiring(b.bids, now), Expiring(b.asks, now));
    DistinctPairwise(gone);
    forall i | 0 <= i < |ids|
      ensures Cancelled(BookWithout(b, ids[..i]), ids[i]) == Some(gone[i])
      ensures Cancel(BookWithout(b, ids[..i]), ids[i]) == BookWithout(b, ids[..i + 1])
    {
      DropOne(b, ids, i);
      FoundWhereExpiring(b, now, gone[i]);
      assert ids[i] !in IdSet(ids[..i]);
      WithoutFinds(b.bids, IdSet(ids[..i]), ids[i]);
      WithoutFinds(b.asks, IdSet(ids[..i]), ids[i]);
    }
  }

  lemma {:induction false} FoundWhereExpiring(b: Book, now: U64, o: Order)
    requires Inv(b) && (o in Expiring(b.bids, now) || o in Expiring(b.asks, now))
    ensures Cancelled(b, o.id) == Some(o)
  {
    ExpiringMembers(b.bids, now);
    ExpiringMembers(b.asks, now);
    if o in b.bids {
      var k :| 0 <= k < |b.bids| && b.bids[k] == o;
      FindMember(b.bids, k);
    } else {
      var k :| 0 <= k < |b.asks| && b.asks[k] == o;
      FindMember(b.asks, k);
    }
  }
}
