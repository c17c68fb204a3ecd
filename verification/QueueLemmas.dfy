/** Facts about one queue: what concatenation, enqueueing, removal and sweeping
    do to ids, order, liquidity and liveness. */
module QueueLemmas {
  import opened Orders
  import opened NaiveBook

  // ---------------------------------------------------------------------
  // Concatenation
  // ---------------------------------------------------------------------

  lemma {:induction false} IdsAppend(a: seq<Order>, b: seq<Order>)
    ensures Ids(a + b) == Ids(a) + Ids(b)
  {
    if a == [] {
      assert a + b == b;
    } else {
      assert (a + b)[1..] == a[1..] + b;
      IdsAppend(a[1..], b);
    }
  }

  lemma {:induction false} DistinctAppend(a: seq<Order>, b: seq<Order>)
    ensures Distinct(a + b) <==> Distinct(a) && Distinct(b) && Ids(a) !! Ids(b)
  {
    if a == [] {
      assert a + b == b;
    } else {
      assert (a + b)[1..] == a[1..] + b;
      IdsAppend(a[1..], b);
      DistinctAppend(a[1..], b);
    }
  }

  lemma {:induction false} LiquidityAppend(a: seq<Order>, b: seq<Order>)
    requires Live(a) && Live(b)
    ensures Live(a + b) && Liquidity(a + b) == Liquidity(a) + Liquidity(b)
  {
    if a == [] {
      assert a + b == b;
    } else {
      assert (a + b)[1..] == a[1..] + b;
      LiquidityAppend(a[1..], b);
    }
  }

  lemma {:induction false} IdsMembers(q: seq<Order>, id: OrderId)
    ensures id in Ids(q) <==> exists i :: 0 <= i < |q| && q[i].id == id
  {
    if q != [] {
      IdsMembers(q[1..], id);
      if id in Ids(q[1..]) {
        var i :| 0 <= i < |q[1..]| && q[1..][i].id == id;
        assert q[i + 1].id == id;
      }
      if i :| 0 <= i < |q| && q[i].id == id {
        if i > 0 { assert q[1..][i - 1].id == id; }
      }
    }
  }

  /** The recursive notion of distinctness is the pairwise one. */
  lemma {:induction false} DistinctPairwise(q: seq<Order>)
    ensures Distinct(q) <==> forall i, j :: 0 <= i < j < |q| ==> q[i].id != q[j].id
  {
    if q != [] {
      DistinctPairwise(q[1..]);
      IdsMembers(q[1..], q[0].id);
      if Distinct(q) {
        forall i, j | 0 <= i < j < |q| ensures q[i].id != q[j].id {
          assert q[j] == q[1..][j - 1];
          if i > 0 { assert q[i] == q[1..][i - 1]; }
        }
      } else if q[0].id in Ids(q[1..]) {
        var j :| 0 <= j < |q[1..]| && q[1..][j].id == q[0].id;
        assert q[0].id == q[j + 1].id;
      } else {
        var i, j :| 0 <= i < j < |q[1..]| && q[1..][i].id == q[1..][j].id;
        assert q[i + 1].id == q[j + 1].id;
      }
    }
  }

  /** The front of `b` has no priority over the back of `a`. */
  predicate Follows(s: Side, a: seq<Order>, b: seq<Order>) {
    a == [] || b == [] || !Better(s, b[0].price, a[|a| - 1].price)
  }

  lemma {:induction false} SortedAppend(s: Side, a: seq<Order>, b: seq<Order>)
    ensures Sorted(s, a + b) <==> Sorted(s, a) && Sorted(s, b) && Follows(s, a, b)
  {
    if a == [] {
      assert a + b == b;
    } else {
      assert (a + b)[1..] == a[1..] + b;
      SortedAppend(s, a[1..], b);
    }
  }

  /** The adjacent notion of sortedness is the pairwise one. */
  lemma {:induction false} SortedPairwise(s: Side, q: seq<Order>)
    ensures Sorted(s, q) <==> forall i, j :: 0 <= i < j < |q| ==> !Better(s, q[j].price, q[i].price)
  {
    if |q| > 1 {
      SortedPairwise(s, q[1..]);
      if Sorted(s, q) {
        forall i, j | 0 <= i < j < |q| ensures !Better(s, q[j].price, q[i].price) {
          assert q[j] == q[1..][j - 1];
          if i > 0 {
            assert q[i] == q[1..][i - 1];
          } else if j > 1 {
            assert !Better(s, q[1..][j - 1].price, q[1..][0].price);
          }
        }
      } else if !Better(s, q[1].price, q[0].price) {
        var i, j :| 0 <= i < j < |q[1..]| && Better(s, q[1..][j].price, q[1..][i].price);
        assert Better(s, q[j + 1].price, q[i + 1].price);
      }
    }
  }

  lemma {:induction false} RestingAppend(s: Side, a: seq<Order>, b: seq<Order>)
    ensures Resting(s, a + b) <==> Resting(s, a) && Resting(s, b)
  {
    if a == [] {
      assert a + b == b;
    } else {
      assert (a + b)[1..] == a[1..] + b;
      RestingAppend(s, a[1..], b);
    }
  }

  lemma {:induction false} RestingAt(s: Side, q: seq<Order>, i: nat)
    requires Resting(s, q) && i < |q|
    ensures q[i].side == s && q[i].Rests()
  {
    if i > 0 { RestingAt(s, q[1..], i - 1); }
  }

  lemma LiveAppend(a: seq<Order>, b: seq<Order>)
    ensures Live(a + b) <==> Live(a) && Live(b)
  {
    var c := a + b;
    assert forall i :: 0 <= i < |a| ==> a[i] == c[i];
    assert forall j :: 0 <= j < |b| ==> b[j] == c[|a| + j];
  }

  /** `QueueOk` of a concatenation, part by part. */
  lemma {:induction false} QueueOkAppend(s: Side, a: seq<Order>, b: seq<Order>)
    ensures QueueOk(s, a + b) <==>
            && QueueOk(s, a) && QueueOk(s, b) && Follows(s, a, b) && Ids(a) !! Ids(b)
            && Liquidity(a) + Liquidity(b) <= U64_MAX
    ensures Ids(a + b) == Ids(a) + Ids(b)
    ensures Live(a) && Live(b) ==> Live(a + b) && Liquidity(a + b) == Liquidity(a) + Liquidity(b)
  {
    LiveAppend(a, b);
    SortedAppend(s, a, b);
    RestingAppend(s, a, b);
    IdsAppend(a, b);
    DistinctAppend(a, b);
    if Live(a) && Live(b) {
      LiquidityAppend(a, b);
    }
  }

  lemma {:induction false} QueueOkSplit(s: Side, q: seq<Order>, a: seq<Order>, b: seq<Order>)
    requires QueueOk(s, q) && q == a + b
    ensures QueueOk(s, a) && QueueOk(s, b) && Follows(s, a, b)
    ensures Ids(a) + Ids(b) == Ids(q) && Ids(a) !! Ids(b) && Liquidity(a) + Liquidity(b) == Liquidity(q)
  {
    QueueOkAppend(s, a, b);
  }

  lemma {:induction false} SuffixOk(s: Side, q: seq<Order>, k: nat)
    requires QueueOk(s, q) && k <= |q|
    ensures QueueOk(s, q[..k]) && QueueOk(s, q[k..]) && Follows(s, q[..k], q[k..])
    ensures Ids(q[..k]) + Ids(q[k..]) == Ids(q) && Ids(q[..k]) !! Ids(q[k..])
    ensures Liquidity(q[..k]) + Liquidity(q[k..]) == Liquidity(q)
  {
    QueueOkSplit(s, q, q[..k], q[k..]);
  }

  // ---------------------------------------------------------------------
  // Enqueue
  // ---------------------------------------------------------------------

  /** Where `Enqueue` puts a new order. */
  function Place(q: seq<Order>, o: Order): (k: nat)
    ensures k <= |q|
    ensures k < |q| ==> Better(o.side, o.price, q[k].price)
    ensures forall i :: 0 <= i < k ==> !Better(o.side, o.price, q[i].price)
    ensures Enqueue(q, o) == q[..k] + [o] + q[k..]
  {
    if q == [] || Better(o.side, o.price, q[0].price) then 0
    else Place(q[1..], o) + 1
  }

  lemma SingletonOk(s: Side, o: Order)
    requires o.side == s && o.Rests() && o.filledQuantity < o.quantity
    ensures QueueOk(s, [o]) && Ids([o]) == {o.id} && Liquidity([o]) == o.Remaining()
  {}

  lemma {:induction false} EnqueueOk(s: Side, q: seq<Order>, o: Order)
    requires QueueOk(s, q) && o.side == s && o.Rests() && o.filledQuantity < o.quantity
    requires o.id !in Ids(q) && Liquidity(q) + o.Remaining() <= U64_MAX
    ensures QueueOk(s, Enqueue(q, o))
    ensures Ids(Enqueue(q, o)) == Ids(q) + {o.id}
    ensures Liquidity(Enqueue(q, o)) == Liquidity(q) + o.Remaining()
  {
    if q == [] || Better(s, o.price, q[0].price) {
      SingletonOk(s, o);
      QueueOkAppend(s, [o], q);
    } else {
      SuffixOk(s, q, 1);
      EnqueueOk(s, q[1..], o);
      assert q[..1] == [q[0]];
      QueueOkAppend(s, [q[0]], Enqueue(q[1..], o));
    }
  }

  // ---------------------------------------------------------------------
  // Find and Remove
  // ---------------------------------------------------------------------

  lemma {:induction false} FindSplits(q: seq<Order>, id: OrderId) returns (k: nat)
    requires id in Ids(q)
    ensures k < |q| && q[k].id == id && id !in Ids(q[..k])
    ensures Find(q, id) == Some(q[k])
    ensures Remove(q, id) == q[..k] + q[k + 1..]
  {
    if q[0].id == id {
      k := 0;
    } else {
      var j := FindSplits(q[1..], id);
      k := j + 1;
      assert q[..k] == [q[0]] + q[1..][..j];
    }
  }

  lemma {:induction false} RemoveAbsent(q: seq<Order>, id: OrderId)
    requires id !in Ids(q)
    ensures Remove(q, id) == q && Find(q, id) == None
  {
    if q != [] { RemoveAbsent(q[1..], id); }
  }

  lemma {:induction false} RemoveOk(s: Side, q: seq<Order>, id: OrderId)
    requires QueueOk(s, q)
    ensures QueueOk(s, Remove(q, id))
    ensures Ids(Remove(q, id)) == Ids(q) - {id}
    ensures Liquidity(Remove(q, id)) <= Liquidity(q)
  {
    if id !in Ids(q) {
      RemoveAbsent(q, id);
    } else {
      var k := FindSplits(q, id);
      SuffixOk(s, q, k);
      SuffixOk(s, q[k..], 1);
      assert q[k..][..1] == [q[k]] && q[k..][1..] == q[k + 1..];
      QueueOkAppend(s, q[..k], q[k + 1..]);
    }
  }

  /** Removing a freshly enqueued order gives the queue back. */
  lemma {:induction false} EnqueueRemove(q: seq<Order>, o: Order)
    requires o.id !in Ids(q)
    ensures Find(Enqueue(q, o), o.id) == Some(o) && Remove(Enqueue(q, o), o.id) == q
  {
    if q == [] || Better(o.side, o.price, q[0].price) {
      assert ([o] + q)[1..] == q;
    } else {
      EnqueueRemove(q[1..], o);
    }
  }

  // ---------------------------------------------------------------------
  // Purging
  // ---------------------------------------------------------------------

  lemma {:induction false} SurvivingMembers(q: seq<Order>, now: U64)
    ensures forall o :: o in Surviving(q, now) <==> o in q && !Expired(o, now)
  {
    if q != [] {
      assert q == [q[0]] + q[1..];
      SurvivingMembers(q[1..], now);
    }
  }

  lemma {:induction false} SurvivingOk(s: Side, q: seq<Order>, now: U64)
    requires QueueOk(s, q)
    ensures QueueOk(s, Surviving(q, now))
    ensures Ids(Surviving(q, now)) <= Ids(q) && Liquidity(Surviving(q, now)) <= Liquidity(q)
    ensures Surviving(q, now) != [] ==> !Better(s, Surviving(q, now)[0].price, q[0].price)
  {
    if q != [] {
      SuffixOk(s, q, 1);
      SurvivingOk(s, q[1..], now);
      assert q[..1] == [q[0]];
      QueueOkAppend(s, [q[0]], Surviving(q[1..], now));
    }
  }

  lemma {:induction false} ExpiringMembers(q: seq<Order>, now: U64)
    ensures forall o :: o in Expiring(q, now) <==> o in q && Expired(o, now)
  {
    if q != [] {
      assert q == [q[0]] + q[1..];
      ExpiringMembers(q[1..], now);
    }
  }

  // ---------------------------------------------------------------------
  // Sweeping
  // ---------------------------------------------------------------------

  lemma {:induction false} SweepStops(q: seq<Order>, t: Order)
    requires Live(q) && (q == [] || t.IsFilled() || !Reaches(t, q[0].price))
    ensures Sweep(q, t) == Swept([], q, t)
  {}

  /** An order that reaches nothing matches nothing. */
  lemma MatchesNothing(q: seq<Order>, o: Order)
    requires Live(q) && (q != [] ==> !Reaches(o, q[0].price))
    requires o.timeInForce.FOK? ==> o.filledQuantity <= o.quantity
    ensures Match(q, o) == Swept([], q, o)
  {
    hide Crossing;
    SweepStops(q, o);
  }

  /** One maker's worth of a sweep, as an equation to rewrite with. */
  lemma {:induction false} SweepStep(q: seq<Order>, t: Order)
    requires Live(q) && q != [] && !t.IsFilled() && Reaches(t, q[0].price)
    ensures var n := Min(t.Remaining(), q[0].Remaining());
      var f := Fill(q[0].id, t.id, q[0].price, n, t.timestampNs);
      Sweep(q, t) == if n == q[0].Remaining() then Sweep(q[1..], t.Execute(n)).After([f])
                     else Swept([f], [q[0].Execute(n)] + q[1..], t.Execute(n))
  {}

  function Traded(fs: seq<Fill>): nat {
    if fs == [] then 0 else fs[0].quantity + Traded(fs[1..])
  }

  /** Fill `f` is a trade of taker `t` against maker `m`, at the maker's price. */
  predicate Trades(f: Fill, m: Order, t: Order)
    requires m.filledQuantity < m.quantity
  {
    && f == Fill(m.id, t.id, m.price, f.quantity, t.timestampNs)
    && 0 < f.quantity <= m.Remaining()
    && Reaches(t, m.price)
  }

  /** The last fill leaves its maker partly executed on the queue. */
  predicate Partial(r: Swept, q: seq<Order>)
    requires |r.fills| <= |q| && Live(q)
  {
    var k := |r.fills|;
    k > 0 && r.fills[k - 1].quantity < q[k - 1].Remaining()
  }

  /** The i-th fill trades the i-th maker, and all but the last maker are exhausted. */
  predicate FillsInOrder(fs: seq<Fill>, q: seq<Order>, t: Order)
    requires Live(q)
  {
    && |fs| <= |q|
    && (forall i :: 0 <= i < |fs| ==> Trades(fs[i], q[i], t))
    && (forall i :: 0 <= i < |fs| - 1 ==> fs[i].quantity == q[i].Remaining())
  }

  lemma FillsInOrderCons(f: Fill, fs: seq<Fill>, q: seq<Order>, t: Order, t1: Order)
    requires Live(q) && q != [] && FillsInOrder(fs, q[1..], t1)
    requires t1 == t.(filledQuantity := t1.filledQuantity)
    requires Trades(f, q[0], t) && f.quantity == q[0].Remaining()
    ensures FillsInOrder([f] + fs, q, t)
  {
    var gs := [f] + fs;
    forall i | 0 <= i < |gs| ensures Trades(gs[i], q[i], t) {
      if i > 0 { assert gs[i] == fs[i - 1] && q[i] == q[1..][i - 1]; }
    }
    forall i | 0 <= i < |gs| - 1 ensures gs[i].quantity == q[i].Remaining() {
      if i > 0 { assert gs[i] == fs[i - 1] && q[i] == q[1..][i - 1]; }
    }
  }

  /** The whole outcome of a sweep in closed form, read off the original queue. */
  lemma {:induction false} SweepShape(q: seq<Order>, t: Order)
    requires Live(q)
    ensures FillsInOrder(Sweep(q, t).fills, q, t)
    ensures Partial(Sweep(q, t), q) ==> Sweep(q, t).taker.IsFilled()
  {
    if q == [] || t.IsFilled() || !Reaches(t, q[0].price) {
    } else {
      var n := Min(t.Remaining(), q[0].Remaining());
      var t1 := t.Execute(n);
      var f := Fill(q[0].id, t.id, q[0].price, n, t.timestampNs);
      if n == q[0].Remaining() {
        SweepShape(q[1..], t1);
        SweepKeepsTaker(q[1..], t1);
        FillsInOrderCons(f, Sweep(q[1..], t1).fills, q, t, t1);
      } else {
        assert Trades(f, q[0], t);
      }
    }
  }

  /** What stays is a suffix of the queue whose first order may be partly executed. */
  lemma {:induction false} SweepRest(q: seq<Order>, t: Order)
    requires Live(q)
    ensures var r := Sweep(q, t); var k := |r.fills|;
      && k <= |q|
      && (k > 0 ==> r.fills[k - 1].quantity <= q[k - 1].Remaining())
      && r.rest == if Partial(r, q) then [q[k - 1].Execute(r.fills[k - 1].quantity)] + q[k..] else q[k..]
  {
    if q == [] || t.IsFilled() || !Reaches(t, q[0].price) {
    } else {
      var n := Min(t.Remaining(), q[0].Remaining());
      if n == q[0].Remaining() {
        SweepRest(q[1..], t.Execute(n));
        var r, r1 := Sweep(q, t), Sweep(q[1..], t.Execute(n));
        assert q[1..][|r1.fills|..] == q[|r.fills|..];
      }
    }
  }

  /** Only `filledQuantity` of the taker changes, and it never passes `quantity`. */
  lemma {:induction false} SweepKeepsTaker(q: seq<Order>, t: Order)
    requires Live(q)
    ensures var r := Sweep(q, t);
      && r.taker == t.(filledQuantity := r.taker.filledQuantity)
      && r.taker.filledQuantity == t.filledQuantity + Traded(r.fills)
      && (t.filledQuantity <= t.quantity ==> r.taker.filledQuantity <= t.quantity)
      && (t.IsFilled() ==> r == Swept([], q, t))
  {
    if q == [] || t.IsFilled() || !Reaches(t, q[0].price) {
    } else {
      var n := Min(t.Remaining(), q[0].Remaining());
      if n == q[0].Remaining() {
        SweepKeepsTaker(q[1..], t.Execute(n));
        assert Sweep(q, t).fills[1..] == Sweep(q[1..], t.Execute(n)).fills;
      } else {
        assert Sweep(q, t).fills[1..] == [];
      }
    }
  }

  /** A sweep stops only when the taker is done or nothing left is in reach, and
      what leaves the queue is exactly what was traded. */
  lemma {:induction false} SweepExhausts(q: seq<Order>, t: Order)
    requires Live(q)
    ensures var r := Sweep(q, t);
      && (r.taker.IsFilled() || r.rest == [] || !Reaches(t, r.rest[0].price))
      && Live(r.rest)
      && Liquidity(q) == Liquidity(r.rest) + Traded(r.fills)
  {
    if q == [] || t.IsFilled() || !Reaches(t, q[0].price) {
    } else {
      var n := Min(t.Remaining(), q[0].Remaining());
      var r := Sweep(q, t);
      if n == q[0].Remaining() {
        SweepExhausts(q[1..], t.Execute(n));
        assert r.fills[1..] == Sweep(q[1..], t.Execute(n)).fills;
      } else {
        assert r.fills[1..] == [] && r.rest[1..] == q[1..];
      }
    }
  }

  lemma {:induction false} SweepOk(s: Side, q: seq<Order>, t: Order)
    requires QueueOk(s, q)
    ensures var r := Sweep(q, t);
      && QueueOk(s, r.rest) && Ids(r.rest) <= Ids(q)
      && (r.rest != [] ==> q != [] && !Better(s, r.rest[0].price, q[0].price))
  {
    if q == [] || t.IsFilled() || !Reaches(t, q[0].price) {
    } else {
      SuffixOk(s, q, 1);
      var n := Min(t.Remaining(), q[0].Remaining());
      if n == q[0].Remaining() {
        SweepOk(s, q[1..], t.Execute(n));
      } else {
        var m := q[0].Execute(n);
        assert q[..1] == [q[0]];
        assert QueueOk(s, [m]) && Follows(s, [m], q[1..]);
        QueueOkAppend(s, [m], q[1..]);
      }
    }
  }
}
