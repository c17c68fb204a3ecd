/** Order, fill and side types of the limit order book, with the machine-integer
    ranges of their fields (src/order.rs, src/book.rs). */
module Orders {

  const I64_MIN: int := -0x8000_0000_0000_0000
  const I64_MAX: int := 0x7fff_ffff_ffff_ffff
  const U64_MAX: int := 0xffff_ffff_ffff_ffff

  type I64 = x: int | I64_MIN <= x <= I64_MAX
  type U64 = x: int | 0 <= x <= U64_MAX

  type OrderId = U64

  datatype Option<+T> = None | Some(value: T)

  datatype Side = Bid | Ask {
    function Opposite(): Side {
      if Bid? then Ask else Bid
    }
  }

  datatype OrderType = Limit | Market | StopLimit(stopPrice: I64)

  datatype TimeInForce = GTC | IOC | FOK | GTD(expiryNs: U64)

  datatype Order = Order(
    id: OrderId,
    side: Side,
    orderType: OrderType,
    price: I64,
    quantity: U64,
    filledQuantity: U64,
    timestampNs: U64,
    timeInForce: TimeInForce
  ) {
    predicate IsFilled() {
      filledQuantity >= quantity
    }

    /** The source subtracts without a check, so callers must rule out overfill. */
    function Remaining(): U64
      requires filledQuantity <= quantity
    {
      quantity - filledQuantity
    }

    /** This order after `n` more lots traded. */
    function Execute(n: U64): Order
      requires filledQuantity + n <= quantity
    {
      this.(filledQuantity := filledQuantity + n)
    }

    /** Whether an unexecuted remainder goes onto the book. */
    predicate Rests() {
      !orderType.Market? && (timeInForce.GTC? || timeInForce.GTD?)
    }
  }

  datatype Fill = Fill(
    makerId: OrderId,
    takerId: OrderId,
    price: I64,
    quantity: U64,
    timestampNs: U64
  )

  function Min(a: int, b: int): int {
    if a <= b then a else b
  }
}
