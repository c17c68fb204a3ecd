/** The position tracker (src/position.rs): i64 fields, i128 saturating
    intermediates and casts, proved equal to exact average-cost accounting. */
module Positions {
  import opened Orders
  import opened Accounting

  const I128_MIN: int := -0x8000_0000_0000_0000_0000_0000_0000_0000
  const I128_MAX: int := 0x7fff_ffff_ffff_ffff_ffff_ffff_ffff_ffff

  /** The result of a saturating i128 operation. */
  function Saturate(x: int): int {
    if x < I128_MIN then I128_MIN else if x > I128_MAX then I128_MAX else x
  }

  /** A cast to i64, which keeps the low 64 bits. */
  function CastI64(x: int): I64 {
    (x - I64_MIN) % 0x1_0000_0000_0000_0000 + I64_MIN
  }

  datatype Position = Position(
    symbolHash: U64,
    netQuantity: I64,
    avgEntryPrice: I64,
    realizedPnl: I64,
    unrealizedPnl: I64,
    tradeCount: U64
  ) {
    static function New(symbolHash: U64): Position {
      Position(symbolHash, 0, 0, 0, 0, 0)
    }

    function AtCost(): Account {
      Account(netQuantity, avgEntryPrice, realizedPnl)
    }
  }

  function SignedQuantity(side: Side, quantity: int): int {
    if side.Bid? then quantity else -quantity
  }

  predicate FitsI64(x: int) {
    I64_MIN <= x <= I64_MAX
  }

  /** The lots a fill adds to a position, as computed: the quantity is cast to i64. */
  function CastLots(fill: Fill, side: Side): int {
    SignedQuantity(side, CastI64(fill.quantity))
  }

  /** No plain u64 or i64 operation of the fill overflows. Nothing is asked of the
      i128 operations or of the casts of the quantity and of the average. */
  predicate InRange(p: Position, fill: Fill, side: Side) {
    var signed := CastLots(fill, side);
    && p.tradeCount < U64_MAX
    && FitsI64(signed)
    && FitsI64(p.netQuantity + signed)
    && (p.netQuantity != 0 && !SameDirection(p.AtCost(), signed) ==>
          var perLot := if p.netQuantity > 0 then fill.price - p.avgEntryPrice else p.avgEntryPrice - fill.price;
          var closed := Min(Abs(p.netQuantity), fill.quantity);
          FitsI64(perLot) && FitsI64(closed) && FitsI64(perLot * closed) && FitsI64(p.realizedPnl + perLot * closed))
  }

  /** The account behind a position after a fill. */
  function FilledAccount(p: Position, fill: Fill, side: Side): Account {
    BookLots(p.AtCost(), CastLots(fill, side), fill.quantity, fill.price)
  }

  lemma FilledFits(p: Position, fill: Fill, side: Side)
    requires InRange(p, fill, side)
    ensures var a := FilledAccount(p, fill, side); FitsI64(a.net) && FitsI64(a.avg) && FitsI64(a.realized)
  {
    hide TruncDiv;
    var signed := CastLots(fill, side);
    if SameDirection(p.AtCost(), signed) {
      AverageBetween(p.netQuantity, signed, p.avgEntryPrice, fill.price, I64_MIN, I64_MAX);
    }
  }

  /** A fill is booked as the trade it is exactly if its quantity fits i64; the cast
      turns a larger one into a trade on the other side. */
  lemma FilledExactlyWhen(p: Position, fill: Fill, side: Side)
    ensures FilledAccount(p, fill, side) == BookTrade(p.AtCost(), SignedQuantity(side, fill.quantity), fill.price)
            <==> fill.quantity <= I64_MAX
  {
    hide TruncDiv;
    if fill.quantity <= I64_MAX { CastExact(fill.quantity); }
  }

  /** The position after a fill: the account moves as average-cost accounting has it
      if the quantity fits i64, and one fill is counted. */
  function Filled(p: Position, fill: Fill, side: Side): (q: Position)
    requires InRange(p, fill, side)
    ensures q.AtCost() == FilledAccount(p, fill, side) && q.tradeCount == p.tradeCount + 1
    ensures fill.quantity <= I64_MAX ==>
              q.AtCost() == BookTrade(p.AtCost(), SignedQuantity(side, fill.quantity), fill.price)
  {
    FilledFits(p, fill, side);
    FilledExactlyWhen(p, fill, side);
    var a := FilledAccount(p, fill, side);
    Position(p.symbolHash, a.net, a.avg, a.realized,
      if p.netQuantity != 0 && a.net == 0 then 0 else p.unrealizedPnl, p.tradeCount + 1)
  }

  /** A fill field by field. The lots and the count always move. A fill from flat or
      through zero opens at its price; one that adds averages toward zero; one that
      reduces realizes its gain on the lots it closes and leaves the average alone; and
      one that closes leaves neither an average nor unrealized P&L. */
  lemma FillOutcome(p: Position, fill: Fill, side: Side)
    requires InRange(p, fill, side) && fill.quantity <= I64_MAX
    ensures var q := Filled(p, fill, side);
      var signed := if side == Bid then fill.quantity else -(fill.quantity as int);
      var net := p.netQuantity + signed;
      var gain := if p.netQuantity > 0 then fill.price - p.avgEntryPrice else p.avgEntryPrice - fill.price;
      var adds := (p.netQuantity > 0 && signed > 0) || (p.netQuantity < 0 && signed < 0);
      && q.symbolHash == p.symbolHash && q.tradeCount == p.tradeCount + 1 && q.netQuantity == net
      && q.realizedPnl == p.realizedPnl + (if p.netQuantity == 0 || adds then 0
                                           else if Abs(p.netQuantity) <= fill.quantity then gain * Abs(p.netQuantity)
                                           else gain * fill.quantity)
      && q.unrealizedPnl == (if p.netQuantity != 0 && net == 0 then 0 else p.unrealizedPnl)
      && (p.netQuantity != 0 && net == 0 ==> q.avgEntryPrice == 0)
      && (p.netQuantity == 0 ==> q.avgEntryPrice == fill.price)
      && ((p.netQuantity > 0 && net < 0) || (p.netQuantity < 0 && net > 0) ==> q.avgEntryPrice == fill.price)
      && (!adds && ((p.netQuantity > 0 && net > 0) || (p.netQuantity < 0 && net < 0)) ==>
            q.avgEntryPrice == p.avgEntryPrice)
      && (adds ==>
            var cost := p.netQuantity * p.avgEntryPrice + signed * fill.price;
            var lost := cost - net * q.avgEntryPrice;
            Abs(lost) < Abs(net) && (lost > 0 ==> cost >= 0) && (lost < 0 ==> cost < 0))
  {
    CastExact(fill.quantity);
    hide CastI64, TruncDiv;
    var signed := SignedQuantity(side, fill.quantity);
    if SameDirection(p.AtCost(), signed) {
      TruncRemainder(p.netQuantity * p.avgEntryPrice + signed * fill.price, p.netQuantity + signed);
    }
  }

  /** The widened average never saturates and the cast back to i64 loses nothing. */
  lemma AverageFits(net: int, signed: int, avg: I64, price: I64)
    requires (net > 0 && signed > 0) || (net < 0 && signed < 0)
    requires FitsI64(net) && FitsI64(signed) && FitsI64(net + signed)
    ensures Saturate(net * avg) == net * avg && Saturate(signed * price) == signed * price
    ensures Saturate(net * avg + signed * price) == net * avg + signed * price
    ensures CastI64(TruncDiv(net * avg + signed * price, net + signed)) ==
            TruncDiv(net * avg + signed * price, net + signed)
  {
    hide TruncDiv;
    AverageBetween(net, signed, avg, price, I64_MIN, I64_MAX);
    ProductBound(net, avg);
    ProductBound(signed, price);
    CastExact(TruncDiv(net * avg + signed * price, net + signed));
  }

  lemma ProductBound(k: int, p: I64)
    ensures Abs(k * p) <= Abs(k) * 0x8000_0000_0000_0000
  {
    MulMono(Abs(p), 0x8000_0000_0000_0000, Abs(k));
    MulNegate(k, p);
    MulNegate(-k, p);
  }

  lemma CastExact(x: int)
    requires FitsI64(x)
    ensures CastI64(x) == x
  {}

  type PositionMap = map<U64, Position>

  /** The position a fill for symbol `k` starts from. */
  function At(ps: PositionMap, k: U64): Position {
    if k in ps then ps[k] else Position.New(k)
  }

  /** A symbol without fills starts from nothing at all. */
  lemma FirstFillOutcome(ps: PositionMap, k: U64)
    requires k !in ps
    ensures var p := At(ps, k);
      && p.symbolHash == k && p.tradeCount == 0 && p.netQuantity == 0
      && p.avgEntryPrice == 0 && p.realizedPnl == 0 && p.unrealizedPnl == 0
  {}

  class PositionTracker {
    var positions: PositionMap

    constructor ()
      ensures positions == map[]
    {
      positions := map[];
    }

    /** Book a fill on the position of one symbol. */
    method ApplyFill(symbolHash: U64, fill: Fill, side: Side)
      requires InRange(At(positions, symbolHash), fill, side)
      modifies this
      ensures positions == old(positions)[symbolHash := Filled(At(old(positions), symbolHash), fill, side)]
    {
      hide BookTrade, CastI64, TruncDiv;
      if symbolHash !in positions {
        positions := positions[symbolHash := Position.New(symbolHash)];
      }
      var pos := positions[symbolHash];
      pos := pos.(tradeCount := pos.tradeCount + 1);
      var signedQty: I64 := if side.Bid? then CastI64(fill.quantity) else -CastI64(fill.quantity);
      var prevNet: I64 := pos.netQuantity;
      var newNet: I64 := prevNet + signedQty;
      if prevNet == 0 {
        pos := pos.(avgEntryPrice := fill.price, netQuantity := newNet);
        positions := positions[symbolHash := pos];
        return;
      }
      var sameDirection := (prevNet > 0 && signedQty > 0) || (prevNet < 0 && signedQty < 0);
      if sameDirection {
        AverageFits(prevNet, signedQty, pos.avgEntryPrice, fill.price);
        var numerator := Saturate(Saturate(prevNet * pos.avgEntryPrice) + Saturate(signedQty * fill.price));
        pos := pos.(avgEntryPrice := CastI64(TruncDiv(numerator, newNet)));
      } else {
        var closeQty: I64 := Min(Abs(prevNet), fill.quantity);
        var pnlPerLot: I64 := if prevNet > 0 then fill.price - pos.avgEntryPrice else pos.avgEntryPrice - fill.price;
        var pnl: I64 := pnlPerLot * closeQty;
        pos := pos.(realizedPnl := pos.realizedPnl + pnl);
        if newNet == 0 {
          pos := pos.(avgEntryPrice := 0, unrealizedPnl := 0);
        } else if (prevNet > 0 && newNet < 0) || (prevNet < 0 && newNet > 0) {
          pos := pos.(avgEntryPrice := fill.price);
        }
      }
      pos := pos.(netQuantity := newNet);
      positions := positions[symbolHash := pos];
    }

    /** Revalue at a price. The result is exact whenever it fits i64 and wraps otherwise. */
    method MarkToMarket(symbolHash: U64, currentPrice: I64)
      requires symbolHash in positions && positions[symbolHash].netQuantity != 0 ==>
                 FitsI64(currentPrice - positions[symbolHash].avgEntryPrice)
      modifies this
      ensures symbolHash !in old(positions) ==> positions == old(positions)
      ensures symbolHash in old(positions) ==>
        var p0 := old(positions)[symbolHash];
        var pnl := p0.netQuantity * (currentPrice - p0.avgEntryPrice);
        && positions == old(positions)[symbolHash := p0.(unrealizedPnl := CastI64(pnl))]
        && (FitsI64(pnl) ==> positions[symbolHash].unrealizedPnl == pnl)
    {
      if symbolHash in positions {
        var pos := positions[symbolHash];
        if pos.netQuantity == 0 {
          assert pos.netQuantity * (currentPrice - pos.avgEntryPrice) == 0;
          CastExact(0);
          positions := positions[symbolHash := pos.(unrealizedPnl := 0)];
          return;
        }
        var diff: I64 := currentPrice - pos.avgEntryPrice;
        ProductBound(pos.netQuantity, diff);
        var pnl := Saturate(pos.netQuantity * diff);
        if FitsI64(pnl) { CastExact(pnl); }
        positions := positions[symbolHash := pos.(unrealizedPnl := CastI64(pnl))];
      }
    }
  }

  /** The accounts behind a map of positions. */
  function AccountsOf(ps: PositionMap): map<U64, Account> {
    map k | k in ps :: ps[k].AtCost()
  }
}
