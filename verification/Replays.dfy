/** Whole runs: the engine answers every allowed sequence of calls exactly as the
    reference book does. */
module Replays {
  import opened NaiveBook
  import opened BookInvariant
  import opened OrderBooks
  import opened PostOnly

  /** One call on the engine. */
  method Submit(book: OrderBook, op: Op) returns (reply: Reply)
    requires book.Valid() && Allowed(book.Contents(), op)
    modifies book
    ensures book.Valid() && book.Contents() == Apply(old(book.Contents()), op)
    ensures reply == Answer(old(book.Contents()), op)
  {
    match op {
      case InsertOp(o, now) =>
        var fills := book.InsertWithTime(o, now);
        reply := Fills(fills);
      case CancelOp(id) =>
        var order := book.Cancel(id);
        reply := Gone(order);
      case PurgeOp(now) =>
        var orders := book.PurgeExpired(now);
        reply := Purged(orders);
      case CancelSideOp(side) =>
        var r := CancelAllSide(book, side);
        reply := Dropped(r.cancelledIds);
      case CancelAllOp =>
        var r := CancelAll(book);
        reply := Dropped(r.cancelledIds);
    }
  }

  /** From an empty book, any allowed run ends in the reference book's contents with
      the reference book's replies, and the invariant holds. */
  method Replay(ops: seq<Op>) returns (book: OrderBook, replies: seq<Reply>)
    requires AllowedRun(EMPTY, ops)
    ensures fresh(book) && book.Valid()
    ensures book.Contents() == Run(EMPTY, ops) && replies == Replies(EMPTY, ops)
  {
    hide Inv, AllowedRun, Run, Replies, Apply, Answer, Allowed, OrderBook.Valid, OrderBook.Contents;
    EmptyHasInv();
    book := new OrderBook();
    replies := [];
    assert ops[0..] == ops;
    var i := 0;
    while i < |ops|
      invariant 0 <= i <= |ops|
      invariant fresh(book) && book.Valid() && Inv(book.Contents()) && AllowedRun(book.Contents(), ops[i..])
      invariant Run(book.Contents(), ops[i..]) == Run(EMPTY, ops)
      invariant replies + Replies(book.Contents(), ops[i..]) == Replies(EMPTY, ops)
    {
      assert ops[i..][0] == ops[i] && ops[i..][1..] == ops[i + 1..];
      RunStep(book.Contents(), ops[i..]);
      var reply := Submit(book, ops[i]);
      replies := replies + [reply];
      i := i + 1;
    }
    RunEnd(book.Contents(), ops[i..]);
  }
}
