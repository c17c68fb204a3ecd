/** Average-cost accounting over unbounded integers: what one fill does to an
    account, and what that conserves. `Positions` proves the machine-integer code
    against it. */
module Accounting {
  import opened Orders

  datatype Account = Account(net: int, avg: int, realized: int)

  const FLAT := Account(0, 0, 0)

  function Abs(x: int): int {
    if x < 0 then -x else x
  }

  function FloorDiv(n: int, d: int): int
    requires n >= 0 && d > 0
  {
    n / d
  }

  /** Division rounding toward zero, as on the source's integers. */
  function TruncDiv(n: int, d: int): int
    requires d != 0
  {
    var q := FloorDiv(Abs(n), Abs(d));
    if (n >= 0) == (d > 0) then q else -q
  }

  predicate SameDirection(a: Account, signed: int) {
    (a.net > 0 && signed > 0) || (a.net < 0 && signed < 0)
  }

  /** Move a position by `signed` lots at `price`, closing up to `size` lots if they
      are against it. */
  function BookLots(a: Account, signed: int, size: nat, price: int): Account {
    var net := a.net + signed;
    if a.net == 0 then Account(net, price, a.realized)
    else if SameDirection(a, signed) then
      Account(net, TruncDiv(a.net * a.avg + signed * price, net), a.realized)
    else
      var closed := Min(Abs(a.net), size);
      var perLot := if a.net > 0 then price - a.avg else a.avg - price;
      var flipped := (a.net > 0 && net < 0) || (a.net < 0 && net > 0);
      Account(net, if net == 0 then 0 else if flipped then price else a.avg, a.realized + perLot * closed)
  }

  /** Book a trade of `signed` lots (positive bought, negative sold) at `price`. */
  function BookTrade(a: Account, signed: int, price: int): Account {
    BookLots(a, signed, Abs(signed), price)
  }

  /** What truncating the average loses; only adding to a position loses anything. */
  function Remainder(a: Account, signed: int, price: int): int {
    if SameDirection(a, signed) then
      var n := a.net * a.avg + signed * price;
      n - (a.net + signed) * TruncDiv(n, a.net + signed)
    else 0
  }

  lemma MulDistributes(a: int, b: int, c: int)
    ensures (a + b) * c == a * c + b * c && (a - b) * c == a * c - b * c
    ensures c * (a + b) == c * a + c * b && c * (a - b) == c * a - c * b
  {}

  lemma DivideFloor(n: int, d: int) returns (r: int)
    requires n >= 0 && d > 0
    ensures n == d * FloorDiv(n, d) + r && 0 <= r < d
  {
    r := n % d;
  }

  lemma MulNegate(a: int, b: int)
    ensures a * -b == -(a * b) && -a * b == -(a * b)
  {}

  lemma SignedProduct(d: int, q: int, positive: bool)
    requires d != 0
    ensures d * (if positive == (d > 0) then q else -q) == if positive then Abs(d) * q else -(Abs(d) * q)
  {
    MulNegate(d, q);
    MulNegate(-d, q);
  }

  /** A remainder of magnitudes, with the signs put back. */
  lemma SignedRemainder(n: int, product: int, r: int, back: int)
    requires Abs(n) == product + r && 0 <= r && back == if n >= 0 then product else -product
    ensures Abs(n - back) == r && (n - back > 0 ==> n >= 0) && (n - back < 0 ==> n < 0)
  {}

  /** The remainder of a truncating division is smaller than the divisor and has the
      sign of the dividend. */
  lemma TruncRemainder(n: int, d: int)
    requires d != 0
    ensures Abs(n - d * TruncDiv(n, d)) < Abs(d)
    ensures (n - d * TruncDiv(n, d) > 0 ==> n >= 0) && (n - d * TruncDiv(n, d) < 0 ==> n < 0)
  {
    var r := DivideFloor(Abs(n), Abs(d));
    var q := FloorDiv(Abs(n), Abs(d));
    SignedProduct(d, q, n >= 0);
    SignedRemainder(n, Abs(d) * q, r, d * TruncDiv(n, d));
  }

  /** Closing `k` lots of a position of `net` lots against its cost. */
  lemma ClosingIdentity(net: int, avg: int, signed: int, price: int)
    ensures (price - avg) * -signed - (net + signed) * avg == -(net * avg) - signed * price
    ensures (price - avg) * net - (net + signed) * price == -(net * avg) - signed * price
  {
    MulDistributes(price, avg, -signed);
    MulDistributes(price, avg, net);
    MulDistributes(net, signed, avg);
    MulDistributes(net, signed, price);
    MulNegate(price, signed);
    MulNegate(avg, signed);
  }

  /** One step of the ledger: the value at cost moves by the cash paid, less what
      truncation lost. */
  lemma StepIdentity(a: Account, signed: int, price: int)
    ensures var b := BookTrade(a, signed, price);
      b.realized - b.net * b.avg == a.realized - a.net * a.avg - signed * price + Remainder(a, signed, price)
  {
    hide TruncDiv;
    ClosingIdentity(a.net, a.avg, signed, price);
    MulNegate(a.avg - price, signed);
    MulNegate(a.avg - price, a.net);
    MulNegate(price - a.avg, signed);
    MulNegate(price - a.avg, a.net);
  }

  /** Only additions to a position lose anything, and each loses less than one tick
      per lot of the new position. */
  lemma RemainderBound(a: Account, signed: int, price: int)
    ensures Remainder(a, signed, price) != 0 ==> SameDirection(a, signed)
    ensures SameDirection(a, signed) ==> Abs(Remainder(a, signed, price)) < Abs(a.net + signed)
  {
    if SameDirection(a, signed) {
      TruncRemainder(a.net * a.avg + signed * price, a.net + signed);
    }
  }

  // ---------------------------------------------------------------------
  // Runs
  // ---------------------------------------------------------------------

  datatype Trade = Trade(signed: int, price: int)

  function RunTrades(a: Account, ts: seq<Trade>): Account
    decreases |ts|
  {
    if ts == [] then a else RunTrades(BookTrade(a, ts[0].signed, ts[0].price), ts[1..])
  }

  /** Cash received, net of cash paid. */
  function Cash(ts: seq<Trade>): int {
    if ts == [] then 0 else Cash(ts[1..]) - ts[0].signed * ts[0].price
  }

  function Remainders(a: Account, ts: seq<Trade>): int
    decreases |ts|
  {
    if ts == [] then 0
    else Remainder(a, ts[0].signed, ts[0].price) + Remainders(BookTrade(a, ts[0].signed, ts[0].price), ts[1..])
  }

  /** The largest loss the additions of a run allow: the new size less one, each time. */
  function Slack(a: Account, ts: seq<Trade>): nat
    decreases |ts|
  {
    if ts == [] then 0
    else
      (if SameDirection(a, ts[0].signed) then Abs(a.net + ts[0].signed) - 1 else 0)
      + Slack(BookTrade(a, ts[0].signed, ts[0].price), ts[1..])
  }

  lemma {:induction false} LedgerFrom(a: Account, ts: seq<Trade>)
    ensures var b := RunTrades(a, ts);
      b.realized - b.net * b.avg == a.realized - a.net * a.avg + Cash(ts) + Remainders(a, ts)
    decreases |ts|
  {
    if ts != [] {
      StepIdentity(a, ts[0].signed, ts[0].price);
      LedgerFrom(BookTrade(a, ts[0].signed, ts[0].price), ts[1..]);
    }
  }

  lemma {:induction false} RemaindersWithin(a: Account, ts: seq<Trade>)
    ensures Abs(Remainders(a, ts)) <= Slack(a, ts)
    decreases |ts|
  {
    if ts != [] {
      RemainderBound(a, ts[0].signed, ts[0].price);
      RemaindersWithin(BookTrade(a, ts[0].signed, ts[0].price), ts[1..]);
    }
  }

  /** Ledger identity over any run from flat: realized P&L is net cash plus the open
      position at cost plus the truncation remainders, which stay within the slack. */
  lemma {:induction false} LedgerIdentity(ts: seq<Trade>)
    ensures var b := RunTrades(FLAT, ts);
      b.realized == Cash(ts) + b.net * b.avg + Remainders(FLAT, ts)
    ensures Abs(Remainders(FLAT, ts)) <= Slack(FLAT, ts)
  {
    LedgerFrom(FLAT, ts);
    RemaindersWithin(FLAT, ts);
  }

  // ---------------------------------------------------------------------
  // Where the average lies
  // ---------------------------------------------------------------------

  /** The prices that opened the position a trade leads to or added to it. */
  function OpenPrices(a: Account, open: seq<int>, t: Trade): seq<int> {
    var net := a.net + t.signed;
    if net == 0 then []
    else if a.net == 0 || (a.net > 0 && net < 0) || (a.net < 0 && net > 0) then [t.price]
    else if SameDirection(a, t.signed) then open + [t.price]
    else open
  }

  function OpenPricesAfter(a: Account, open: seq<int>, ts: seq<Trade>): seq<int>
    decreases |ts|
  {
    if ts == [] then open
    else OpenPricesAfter(BookTrade(a, ts[0].signed, ts[0].price), OpenPrices(a, open, ts[0]), ts[1..])
  }

  ghost predicate Within(x: int, ps: seq<int>) {
    && (exists i :: 0 <= i < |ps| && ps[i] <= x)
    && (exists i :: 0 <= i < |ps| && x <= ps[i])
  }

  lemma QuotientBounds(n: int, d: int, lo: int, hi: int)
    requires d > 0 && lo * d <= n <= hi * d
    ensures lo <= TruncDiv(n, d) <= hi
  {
    var q := TruncDiv(n, d);
    TruncRemainder(n, d);
    assert Abs(n - d * q) < d && d * q == q * d;
    if q > hi { MulLess(hi, q, d); }
    if q < lo { MulLess(q, lo, d); }
  }

  /** One more on the left is a whole divisor more on the right. */
  lemma MulLess(x: int, y: int, d: int)
    requires x < y && d > 0
    ensures x * d + d <= y * d
  {
    assert (x + 1) * d <= y * d;
  }

  lemma MulMono(x: int, y: int, k: int)
    requires x <= y && k >= 0
    ensures x * k <= y * k
  {}

  lemma TruncNegate(n: int, d: int)
    requires d != 0
    ensures TruncDiv(-n, -d) == TruncDiv(n, d)
  {}

  lemma AverageOfLots(u: int, v: int, a: int, p: int, lo: int, hi: int)
    requires u > 0 && v > 0 && lo <= a <= hi && lo <= p <= hi
    ensures lo <= TruncDiv(u * a + v * p, u + v) <= hi
  {
    hide TruncDiv;
    MulMono(lo, a, u);
    MulMono(a, hi, u);
    MulMono(lo, p, v);
    MulMono(p, hi, v);
    MulDistributes(u, v, lo);
    MulDistributes(u, v, hi);
    QuotientBounds(u * a + v * p, u + v, lo, hi);
  }

  /** A truncated weighted average lies between the bounds of what it averages. */
  lemma AverageBetween(x: int, y: int, a: int, p: int, lo: int, hi: int)
    requires (x > 0 && y > 0) || (x < 0 && y < 0)
    requires lo <= a <= hi && lo <= p <= hi
    ensures lo <= TruncDiv(x * a + y * p, x + y) <= hi
  {
    if x > 0 {
      AverageOfLots(x, y, a, p, lo, hi);
    } else {
      hide TruncDiv;
      AverageOfLots(-x, -y, a, p, lo, hi);
      MulNegate(x, a);
      MulNegate(y, p);
      var n, d := x * a + y * p, x + y;
      assert -x * a + -y * p == -n && -x + -y == -d;
      TruncNegate(n, d);
    }
  }

  lemma HullStep(a: Account, open: seq<int>, t: Trade)
    requires a.net != 0 ==> Within(a.avg, open)
    ensures var b := BookTrade(a, t.signed, t.price); b.net != 0 ==> Within(b.avg, OpenPrices(a, open, t))
  {
    var b, ps := BookTrade(a, t.signed, t.price), OpenPrices(a, open, t);
    if b.net == 0 {
    } else if a.net != 0 && SameDirection(a, t.signed) {
      var i :| 0 <= i < |open| && open[i] <= a.avg;
      var j :| 0 <= j < |open| && a.avg <= open[j];
      var most := if open[j] < t.price then t.price else open[j];
      AverageBetween(a.net, t.signed, a.avg, t.price, Min(open[i], t.price), most);
      assert ps[i] == open[i] && ps[j] == open[j] && ps[|open|] == t.price;
    } else if ps == [t.price] {
      assert ps[0] == t.price;
    }
  }

  /** From any open on, the average entry price lies between the least and the
      greatest price that opened the position or added to it. */
  lemma {:induction false} AverageStaysInHull(a: Account, open: seq<int>, ts: seq<Trade>)
    requires a.net != 0 ==> Within(a.avg, open)
    ensures var b := RunTrades(a, ts); b.net != 0 ==> Within(b.avg, OpenPricesAfter(a, open, ts))
    decreases |ts|
  {
    if ts != [] {
      HullStep(a, open, ts[0]);
      AverageStaysInHull(BookTrade(a, ts[0].signed, ts[0].price), OpenPrices(a, open, ts[0]), ts[1..]);
    }
  }

  // ---------------------------------------------------------------------
  // Splitting a reducing trade
  // ---------------------------------------------------------------------

  /** Averaging a position with more lots at its own average changes nothing. */
  lemma AverageOfEqual(x: int, y: int, p: int)
    requires (x > 0 && y > 0) || (x < 0 && y < 0)
    ensures TruncDiv(x * p + y * p, x + y) == p
  {
    AverageBetween(x, y, p, p, p, p);
  }

  /** Trading against a position in two parts at one price is trading once: partial
      closes leave the average alone, and a flip opens at the trade price however the
      trade is cut. */
  lemma ReducingTradeSplits(a: Account, x: int, y: int, price: int)
    requires (a.net > 0 && x < 0 && y < 0) || (a.net < 0 && x > 0 && y > 0)
    ensures BookTrade(BookTrade(a, x, price), y, price) == BookTrade(a, x + y, price)
  {
    hide TruncDiv;
    var perLot := if a.net > 0 then price - a.avg else a.avg - price;
    var b := BookTrade(a, x, price);
    MulDistributes(Abs(x), Abs(y), perLot);
    MulDistributes(Abs(x), Abs(a.net) - Abs(x), perLot);
    if b.net != 0 && SameDirection(b, y) {
      AverageOfEqual(b.net, y, price);
    }
  }
}
