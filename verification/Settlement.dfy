/** Booking the fills of the book: every fill goes to the taker on its side and to
    the maker on the other. Positions net to zero, and marked at any one price the
    P&L of all accounts together is just what truncation lost. `Clearing` carries this
    over to the fields of the position tracker. */
module Settlement {
  import opened Orders
  import opened NaiveBook
  import opened QueueLemmas
  import opened BookInvariant
  import opened MatchingTheorems
  import opened Accounting
  import opened Positions

  type AccountMap = map<U64, Account>

  /** One fill seen by the clearing house: whose account took, whose made, and on
      which side the taker was. */
  datatype Deal = Deal(taker: U64, maker: U64, takerSide: Side, fill: Fill) {
    function TakerLots(): int {
      SignedQuantity(takerSide, fill.quantity)
    }

    function MakerLots(): int {
      SignedQuantity(takerSide.Opposite(), fill.quantity)
    }
  }

  function Lookup(m: AccountMap, k: U64): Account {
    if k in m then m[k] else FLAT
  }

  function BookFor(m: AccountMap, k: U64, signed: int, price: int): AccountMap {
    m[k := BookTrade(Lookup(m, k), signed, price)]
  }

  function SettleDeal(m: AccountMap, d: Deal): AccountMap {
    BookFor(BookFor(m, d.taker, d.TakerLots(), d.fill.price), d.maker, d.MakerLots(), d.fill.price)
  }

  function SettleAll(m: AccountMap, ds: seq<Deal>): AccountMap
    decreases |ds|
  {
    if ds == [] then m else SettleAll(SettleDeal(m, ds[0]), ds[1..])
  }

  /** What truncation lost to the two accounts of a deal. */
  function DealLoss(m: AccountMap, d: Deal): int {
    var m1 := BookFor(m, d.taker, d.TakerLots(), d.fill.price);
    Remainder(Lookup(m, d.taker), d.TakerLots(), d.fill.price)
    + Remainder(Lookup(m1, d.maker), d.MakerLots(), d.fill.price)
  }

  function Losses(m: AccountMap, ds: seq<Deal>): int
    decreases |ds|
  {
    if ds == [] then 0 else DealLoss(m, ds[0]) + Losses(SettleDeal(m, ds[0]), ds[1..])
  }

  // ---------------------------------------------------------------------
  // Totals over all accounts
  // ---------------------------------------------------------------------

  /** A total to take: open lots, or P&L realized and unrealized at a mark price. */
  datatype Measure = Lots | Worth(mark: int)

  function Value(a: Account, what: Measure): int {
    match what
    case Lots => a.net
    case Worth(mark) => a.realized + a.net * (mark - a.avg)
  }

  /** The sum over the accounts with keys below `n`. */
  function TotalBelow(m: AccountMap, what: Measure, n: nat): int {
    if n == 0 then 0
    else TotalBelow(m, what, n - 1) + if n - 1 <= U64_MAX && n - 1 in m then Value(m[n - 1], what) else 0
  }

  function Total(m: AccountMap, what: Measure): int {
    TotalBelow(m, what, U64_MAX + 1)
  }

  lemma {:induction false} TotalChanges(m: AccountMap, k: U64, a: Account, what: Measure, n: nat)
    ensures TotalBelow(m[k := a], what, n) ==
            TotalBelow(m, what, n) + if k < n then Value(a, what) - Value(Lookup(m, k), what) else 0
  {
    if n > 0 { TotalChanges(m, k, a, what, n - 1); }
  }

  /** What a booking adds to each total: the lots, or the trade's gain at the mark
      plus what truncation lost. */
  lemma ValueChanges(a: Account, signed: int, price: int, mark: int)
    ensures Value(BookTrade(a, signed, price), Lots) == Value(a, Lots) + signed
    ensures Value(BookTrade(a, signed, price), Worth(mark)) ==
            Value(a, Worth(mark)) + signed * (mark - price) + Remainder(a, signed, price)
  {
    var b := BookTrade(a, signed, price);
    StepIdentity(a, signed, price);
    hide BookTrade, Remainder;
    MulDistributes(mark, a.avg, a.net);
    MulDistributes(mark, b.avg, b.net);
    MulDistributes(mark, price, signed);
    assert b.net == a.net + signed by { NetMoves(a, signed, price); }
    MulDistributes(a.net, signed, mark);
  }

  lemma NetMoves(a: Account, signed: int, price: int)
    ensures BookTrade(a, signed, price).net == a.net + signed
  {}

  lemma DealIsZeroSum(m: AccountMap, d: Deal, mark: int)
    ensures Total(SettleDeal(m, d), Lots) == Total(m, Lots)
    ensures Total(SettleDeal(m, d), Worth(mark)) == Total(m, Worth(mark)) + DealLoss(m, d)
  {
    var s1, s2, price := d.TakerLots(), d.MakerLots(), d.fill.price;
    var t := Lookup(m, d.taker);
    var m1 := BookFor(m, d.taker, s1, price);
    var k := Lookup(m1, d.maker);
    hide TotalBelow, BookTrade, Remainder, Value;
    TotalChanges(m, d.taker, BookTrade(t, s1, price), Lots, U64_MAX + 1);
    TotalChanges(m, d.taker, BookTrade(t, s1, price), Worth(mark), U64_MAX + 1);
    TotalChanges(m1, d.maker, BookTrade(k, s2, price), Lots, U64_MAX + 1);
    TotalChanges(m1, d.maker, BookTrade(k, s2, price), Worth(mark), U64_MAX + 1);
    ValueChanges(t, s1, price, mark);
    ValueChanges(k, s2, price, mark);
    MulNegate(mark - price, d.fill.quantity);
    assert s1 * (mark - price) + s2 * (mark - price) == 0;
  }

  lemma {:induction false} SettleFrom(m: AccountMap, ds: seq<Deal>, mark: int)
    ensures Total(SettleAll(m, ds), Lots) == Total(m, Lots)
    ensures Total(SettleAll(m, ds), Worth(mark)) == Total(m, Worth(mark)) + Losses(m, ds)
    decreases |ds|
  {
    if ds != [] {
      DealIsZeroSum(m, ds[0], mark);
      SettleFrom(SettleDeal(m, ds[0]), ds[1..], mark);
    }
  }

  lemma {:induction false} NobodyOwnsNothing(what: Measure, n: nat)
    ensures TotalBelow(map[], what, n) == 0
  {
    if n > 0 { NobodyOwnsNothing(what, n - 1); }
  }

  // ---------------------------------------------------------------------
  // Runs of the book
  // ---------------------------------------------------------------------

  function DealsOf(fs: seq<Fill>, side: Side, owner: OrderId -> U64): seq<Deal> {
    if fs == [] then []
    else [Deal(owner(fs[0].takerId), owner(fs[0].makerId), side, fs[0])] + DealsOf(fs[1..], side, owner)
  }

  /** The deals of a whole run of book operations, in order. */
  ghost function RunDeals(b: Book, ops: seq<Op>, owner: OrderId -> U64): seq<Deal>
    requires Inv(b) && AllowedRun(b, ops)
    decreases |ops|
  {
    if ops == [] then []
    else
      ApplyKeepsInv(b, ops[0]);
      (match ops[0] case InsertOp(o, now) => DealsOf(Insert(b, o, now).fills, o.side, owner) case _ => [])
      + RunDeals(Apply(b, ops[0]), ops[1..], owner)
  }

  /** Over any run from an empty book, whoever owns the orders: the accounts net to
      zero lots, and at any mark their total P&L is exactly the truncation losses. */
  lemma {:induction false} RunsAreZeroSum(ops: seq<Op>, owner: OrderId -> U64, mark: int)
    requires AllowedRun(EMPTY, ops)
    ensures var ds := RunDeals(EMPTY, ops, owner); var m := SettleAll(map[], ds);
      Total(m, Lots) == 0 && Total(m, Worth(mark)) == Losses(map[], ds)
  {
    var ds := RunDeals(EMPTY, ops, owner);
    SettleFrom(map[], ds, mark);
    NobodyOwnsNothing(Lots, U64_MAX + 1);
    NobodyOwnsNothing(Worth(mark), U64_MAX + 1);
  }

  /** The sides are the true ones: every maker of an insertion's fills is an order
      resting on the side opposite to the taker's, and every quantity is positive. */
  lemma MakersAreOpposite(b: Book, o: Order, now: U64, i: nat)
    requires Inv(b) && Admissible(b, o) && i < |Insert(b, o, now).fills|
    ensures var f, q := Insert(b, o, now).fills[i], Makers(b, o);
      f.quantity > 0 && i < |q| && q[i].id == f.makerId && q[i].side == o.side.Opposite() && f.takerId == o.id
  {
    FillsAreAQueuePrefix(b, o, now);
    RestingAt(o.side.Opposite(), Makers(b, o), i);
    assert Trades(Insert(b, o, now).fills[i], Makers(b, o)[i], o);
  }
}
