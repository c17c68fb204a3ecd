/** The aggregated view of one side of the book. */
module MarketDepth {
  import opened Orders
  import opened NaiveBook
  import opened Levels

  function Rows(m: LevelMap, n: nat): seq<(I64, U64)> {
    if m == [] || n == 0 then [] else [(m[0].price, m[0].totalQuantity)] + Rows(m[1..], n - 1)
  }

  /** Quantity resting at exactly this price. */
  function AtPrice(q: seq<Order>, p: int): nat
    requires Live(q)
  {
    if q == [] then 0 else (if q[0].price == p then q[0].Remaining() else 0) + AtPrice(q[1..], p)
  }

  /** `d` lists the `n` best prices of the queue, best first, each with all that
      rests there; fewer only if the queue has no more prices. */
  ghost predicate IsDepth(s: Side, q: seq<Order>, n: nat, d: seq<(I64, U64)>)
    requires Live(q)
  {
    && |d| <= n
    && (forall i :: 0 <= i < |d| ==> d[i].1 == AtPrice(q, d[i].0) > 0)
    && (forall i, j :: 0 <= i < j < |d| ==> Better(s, d[i].0, d[j].0))
    && (forall k :: 0 <= k < |q| ==>
          || (exists i :: 0 <= i < |d| && d[i].0 == q[k].price)
          || (|d| == n && forall i :: 0 <= i < |d| ==> Better(s, d[i].0, q[k].price)))
  }

  lemma {:induction false} AtPriceAppend(a: seq<Order>, b: seq<Order>, p: int)
    requires Live(a) && Live(b) && Live(a + b)
    ensures AtPrice(a + b, p) == AtPrice(a, p) + AtPrice(b, p)
  {
    if a == [] {
      assert a + b == b;
    } else {
      assert (a + b)[1..] == a[1..] + b;
      AtPriceAppend(a[1..], b, p);
    }
  }

  lemma {:induction false} AtOnePrice(q: seq<Order>, p: I64, x: int)
    requires Live(q) && forall i :: 0 <= i < |q| ==> q[i].price == p
    ensures AtPrice(q, x) == if x == p then Liquidity(q) else 0
  {
    if q != [] { AtOnePrice(q[1..], p, x); }
  }

  /** Everything behind the front level is at strictly worse prices. */
  lemma {:induction false} Behind(s: Side, m: LevelMap, p: I64)
    requires LevelsOk(s, m) && (m != [] ==> Better(s, p, m[0].price))
    ensures forall k :: 0 <= k < |Flat(m)| ==> Better(s, p, Flat(m)[k].price)
    ensures Live(Flat(m)) && AtPrice(Flat(m), p) == 0
  {
    FlatLiquidity(s, m);
    if m != [] {
      Behind(s, m[1..], p);
      AtOnePrice(m[0].orders, m[0].price, p);
      AtPriceAppend(m[0].orders, Flat(m[1..]), p);
    }
  }

  lemma {:induction false} RowsInOrder(s: Side, m: LevelMap, n: nat)
    requires LevelsOk(s, m)
    ensures |Rows(m, n)| <= n
    ensures forall i :: 0 <= i < |Rows(m, n)| ==>
              Rows(m, n)[i].0 == m[0].price || Better(s, m[0].price, Rows(m, n)[i].0)
    ensures forall i, j :: 0 <= i < j < |Rows(m, n)| ==> Better(s, Rows(m, n)[i].0, Rows(m, n)[j].0)
  {
    if m != [] && n > 0 {
      RowsInOrder(s, m[1..], n - 1);
      var d, d1 := Rows(m, n), Rows(m[1..], n - 1);
      assert forall i :: 0 < i < |d| ==> d[i] == d1[i - 1];
    }
  }

  lemma {:induction false} RowsTotal(s: Side, m: LevelMap, n: nat, i: nat)
    requires LevelsOk(s, m) && i < |Rows(m, n)|
    ensures Live(Flat(m)) && Rows(m, n)[i].1 == AtPrice(Flat(m), Rows(m, n)[i].0) > 0
  {
    FlatLiquidity(s, m);
    var rest, row := m[1..], Rows(m, n)[i];
    FlatLiquidity(s, rest);
    AtOnePrice(m[0].orders, m[0].price, row.0);
    AtPriceAppend(m[0].orders, Flat(rest), row.0);
    if i == 0 {
      Behind(s, rest, m[0].price);
    } else {
      RowsTotal(s, rest, n - 1, i - 1);
      RowsInOrder(s, m, n);
      assert Better(s, Rows(m, n)[0].0, row.0);
    }
  }

  lemma {:induction false} RowsComplete(s: Side, m: LevelMap, n: nat, k: nat) returns (at: nat)
    requires LevelsOk(s, m) && k < |Flat(m)|
    ensures || (at < |Rows(m, n)| && Rows(m, n)[at].0 == Flat(m)[k].price)
            || (|Rows(m, n)| == n && forall i :: 0 <= i < n ==> Better(s, Rows(m, n)[i].0, Flat(m)[k].price))
  {
    at := 0;
    if n > 0 && k >= |m[0].orders| {
      var j := RowsComplete(s, m[1..], n - 1, k - |m[0].orders|);
      at := j + 1;
      Behind(s, m[1..], m[0].price);
      assert Flat(m)[k] == Flat(m[1..])[k - |m[0].orders|];
      assert forall i :: 0 < i < |Rows(m, n)| ==> Rows(m, n)[i] == Rows(m[1..], n - 1)[i - 1];
    }
  }

  lemma {:induction false} RowsAreDepth(s: Side, m: LevelMap, n: nat)
    requires LevelsOk(s, m)
    ensures Live(Flat(m)) && IsDepth(s, Flat(m), n, Rows(m, n))
  {
    FlatLiquidity(s, m);
    RowsInOrder(s, m, n);
    var q, d := Flat(m), Rows(m, n);
    forall i | 0 <= i < |d| ensures d[i].1 == AtPrice(q, d[i].0) > 0 {
      RowsTotal(s, m, n, i);
    }
    hide AtPrice, Flat, Rows;
    forall k | 0 <= k < |q|
      ensures || (exists i :: 0 <= i < |d| && d[i].0 == q[k].price)
              || (|d| == n && forall i :: 0 <= i < |d| ==> Better(s, d[i].0, q[k].price))
    {
      var at := RowsComplete(s, m, n, k);
    }
  }
}
