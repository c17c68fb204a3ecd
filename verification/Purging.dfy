/** Expiry purge: which orders go, which stay, and in what order. */
module Purging {
  import opened Orders
  import opened NaiveBook
  import opened QueueLemmas
  import opened BookInvariant

  lemma {:induction false} PurgePartitions(q: seq<Order>, now: U64)
    ensures multiset(q) == multiset(Expiring(q, now)) + multiset(Surviving(q, now))
  {
    if q != [] {
      PurgePartitions(q[1..], now);
      assert q == [q[0]] + q[1..];
    }
  }

  lemma {:induction false} SurvivingAppend(a: seq<Order>, b: seq<Order>, now: U64)
    ensures Surviving(a + b, now) == Surviving(a, now) + Surviving(b, now)
  {
    if a == [] {
      assert a + b == b;
    } else {
      assert (a + b)[1..] == a[1..] + b;
      SurvivingAppend(a[1..], b, now);
    }
  }

  /** Where the i-th order of the queue ends up if it survives. */
  function Slot(q: seq<Order>, now: U64, i: nat): nat
    requires i <= |q|
  {
    |Surviving(q[..i], now)|
  }

  /** Survivors keep their relative order. */
  lemma {:induction false} SurvivorsKeepOrder(q: seq<Order>, now: U64, i: nat, j: nat)
    requires i < j < |q| && !Expired(q[i], now) && !Expired(q[j], now)
    ensures Slot(q, now, i) < Slot(q, now, j) < |Surviving(q, now)|
    ensures Surviving(q, now)[Slot(q, now, i)] == q[i] && Surviving(q, now)[Slot(q, now, j)] == q[j]
  {
    SurvivorAt(q, now, i);
    SurvivorAt(q, now, j);
    SurvivorAt(q[..j], now, i);
    assert q[..j][..i] == q[..i];
  }

  lemma {:induction false} SurvivorAt(q: seq<Order>, now: U64, i: nat)
    requires i < |q| && !Expired(q[i], now)
    ensures Slot(q, now, i) < |Surviving(q, now)| && Surviving(q, now)[Slot(q, now, i)] == q[i]
  {
    assert q == q[..i] + ([q[i]] + q[i + 1..]);
    SurvivingAppend(q[..i], [q[i]] + q[i + 1..], now);
    SurvivingAppend([q[i]], q[i + 1..], now);
  }

  /** Purging at an earlier and then at a later time is purging at the later time;
      with equal times, purging is idempotent and finds nothing the second time. */
  lemma {:induction false} PurgeAbsorbs(q: seq<Order>, now: U64, later: U64)
    requires now <= later
    ensures Surviving(Surviving(q, now), later) == Surviving(q, later)
    ensures multiset(Expiring(q, now)) + multiset(Expiring(Surviving(q, now), later)) == multiset(Expiring(q, later))
    ensures Expiring(Surviving(q, now), now) == []
  {
    if q != [] {
      PurgeAbsorbs(q[1..], now, later);
      assert Surviving(q, now) != [] ==> Surviving(q, now) == [Surviving(q, now)[0]] + Surviving(q, now)[1..];
    }
  }

  /** A purge returns the resting good-till-date orders whose expiry is at or before
      `now` and no other, removes just these, leaves a valid book, and a second purge
      changes and returns nothing. */
  lemma {:induction false} PurgeExact(b: Book, now: U64)
    requires Inv(b)
    ensures var gone := Answer(b, PurgeOp(now)); var left := Apply(b, PurgeOp(now));
      && gone.Purged? && Inv(left)
      && (forall o :: o in gone.orders <==>
            o in b.bids + b.asks && o.timeInForce.GTD? && o.timeInForce.expiryNs <= now)
      && (forall o :: o in left.bids + left.asks <==>
            o in b.bids + b.asks && !(o.timeInForce.GTD? && o.timeInForce.expiryNs <= now))
      && multiset(b.bids + b.asks) == multiset(gone.orders) + multiset(left.bids + left.asks)
      && Apply(left, PurgeOp(now)) == left && Answer(left, PurgeOp(now)) == Purged([])
  {
    hide Sorted, Distinct, Resting, Ids, Liquidity, Inv, Expiring, Surviving;
    ExpiringMembers(b.bids, now);
    ExpiringMembers(b.asks, now);
    SurvivingMembers(b.bids, now);
    SurvivingMembers(b.asks, now);
    PurgePartitions(b.bids, now);
    PurgePartitions(b.asks, now);
    PurgeAbsorbs(b.bids, now, now);
    PurgeAbsorbs(b.asks, now, now);
    PurgeKeepsInv(b, now);
  }
}
