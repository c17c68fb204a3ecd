# Verification of the ALICE-Ledger core

This project models the trading core of ALICE-Ledger and proves what its parts promise:
the limit order book, the FIX 4.4 codec, position accounting, the audit chain, and batch
validation.

| file | content |
|---|---|
| `Orders.dfy` | orders, fills, sides, and the i64 and u64 ranges |
| `NaiveBook.dfy` | the reference book: one flat price-then-arrival list of orders per side |
| `QueueLemmas.dfy`, `BookInvariant.dfy` | one queue; the book invariant over every run |
| `TimePriority.dfy`, `Conservation.dfy` | first in, first out, and every lot accounted for, over every run |
| `MatchingTheorems.dfy`, `Mirror.dfy`, `Purging.dfy`, `PostOnlyRules.dfy`, `Dropping.dfy` | what matching, mirroring, purging and post-only checks guarantee |
| `BookOutcomes.dfy` | what each operation of the book leaves and answers, on the fields of the orders alone |
| `Levels.dfy`, `IdIndexes.dfy`, `LevelLoops.dfy`, `MarketDepth.dfy` | price levels with cached totals, the id index, the loops over levels |
| `OrderBooks.dfy`, `PostOnly.dfy`, `Replays.dfy` | the matching engine as a class, its clients, and whole runs |
| `Accounting.dfy`, `Positions.dfy`, `TrackerRuns.dfy` | average-cost accounting, the i64/i128 tracker, and its runs |
| `Settlement.dfy`, `Clearing.dfy` | booking the fills of the book: on accounts, and by engine and tracker together |
| `RunChecks.dfy` | checks on the submissions of a run that rule out disallowed calls and overflow |
| `ByteStrings.dfy`, `FixWire.dfy`, `FixEnvelope.dfy`, `FixCodec.dfy` | UTF-8, numerals, the FIX wire form, and the parser and serialiser loops |
| `FixTheorems.dfy`, `FixSlicing.dfy` | round trips, and when parsing slices out of order |
| `Unicode.dfy`, `FixFields.dfy`, `FixAcceptance.dfy`, `FixMessages.dfy` | what text, fields, accepted buffers and sent messages are, on the bytes alone |
| `FixCorruption.dfy`, `FixSeparator.dfy` | what corruption can do |
| `AuditEncoding.dfy`, `AuditChain.dfy` | canonical layouts and the hash chain |
| `Risk.dfy`, `Bulk.dfy`, `BulkTheorems.dfy` | risk limits and batch validation |
| `BulkOutcomes.dfy` | what becomes of each order of a batch, read off the batch |

The order book keeps four structures that must agree: two maps of FIFO price levels, a
cached total per level, and an index from ids to side and price. `OrderBook` updates them
in place as the source does. `Valid()` says that they agree, and every method is proved to
turn the flat queues into exactly what the reference book computes and to answer as it does.
Since levels and index are determined by the queues (`LevelsAreCanonical`), every theorem
about the reference book is one about the engine. A `BTreeMap` is represented by its
entries in key order. Prices are i64 and quantities u64 throughout, so every plain addition
of the source is shown to stay in range or has a precondition that says so.

Accounting identities are proved over unbounded integers. `ApplyFill` is proved to compute
the same with i64 fields, i128 saturating intermediates and casts, and `Track`, `Clear` and
`TradeAndClear` state the identities on the fields of the tracker after whole runs. The hash
of the audit chain is an arbitrary function; no property of it is assumed.

Where the code and its documentation differ, the model follows the code:

- `src/order.rs:33` says a stop-limit order waits for its stop price; the book matches it as a
  limit order at once (`src/book.rs:323`).
- `src/fix.rs:156-159` speaks of the length tag; the scan accepts `9=` anywhere, also inside
  the begin string (`src/fix.rs:163`). `RoundTrip` gives the exact consequence.
- `src/fix.rs:191` says tag 8 must be present; the code supplies `FIX.4.4` (`src/fix.rs:196-198`).
- `src/position.rs:30` calls the average price scaled; it is not.
- `src/position.rs:11-12` speaks of an exact average; each addition to a position truncates,
  and `LedgerIdentity` accounts for exactly what that loses.
- `src/post_only.rs:8` says a post-only order always rests; the verdict looks at the price
  alone, so it lets immediate and expired orders through (`VerdictMissesImmediateOrCancel`).
  `RestsExactlyWhen` says when an order judged to rest does, and `VerdictIsExact` when an
  order judged to match does.
- `src/fix.rs:94-98` speaks of errors only; on a buffer whose length tags all stand behind its
  checksum fields the parser panics (`src/fix.rs:183`), for example on `8=F|10=1|9=5|` with
  `|` for the separator. `SlicesOutOfOrderExactlyWhen` says exactly when.
- `src/bulk.rs:123-129` and `src/risk.rs:148-154` cast quantities to i64, so one of 2^63 or
  more moves the running position the wrong way. `KeepsPositionExactlyWhen` and
  `KeepsLimitExactlyWhen` say for which rules that cannot happen.

## Model

| member | source | states |
|---|---|---|
| OrderBooks.OrderBook.InsertWithTime | src/book.rs:169-206 | a submission leaves the contents, and returns the fills, of the reference book, and all four structures agree again |
| OrderBooks.OrderBook.Insert | src/book.rs:160-162 | the same with the expiry check switched off |
| OrderBooks.OrderBook.Cancel | src/book.rs:211-247 | returns the resting order with the id, if any, and leaves the reference book without it |
| OrderBooks.OrderBook.PurgeExpired | src/book.rs:257-291 | returns the expired orders, bids then asks in priority order, and leaves exactly the survivors |
| OrderBooks.OrderBook.CancelInTurn | src/book.rs:283-290 | cancelling the collected ids one by one finds each order they were collected from |
| OrderBooks.OrderBook.MatchBid | src/book.rs:315-348 | asks, fills and taker end as in the reference match; the index holds exactly what still rests |
| OrderBooks.OrderBook.MatchAsk | src/book.rs:351-390 | the same for an incoming ask against the bids |
| OrderBooks.OrderBook.TradeAsks | src/book.rs:326-347 | the loop over levels trades what one pass over the flat ask queue trades, and prunes emptied levels |
| OrderBooks.OrderBook.TradeBids | src/book.rs:361-389 | the same over the flat bid queue |
| OrderBooks.OrderBook.CanFillBid | src/book.rs:471-482 | true exactly if the quantity resting within the limit covers the order; the u64 sum of cached totals is in range |
| OrderBooks.OrderBook.CanFillAsk | src/book.rs:485-496 | the same for an ask against the bids |
| OrderBooks.OrderBook.RestOrder | src/book.rs:500-516 | the order joins the queue of its side behind equal prices, and the index learns it |
| OrderBooks.OrderBook.AllOrderIdsBySide | src/book.rs:294-308 | the ids of one side in priority order |
| OrderBooks.OrderBook.BestBid | src/book.rs:111-113 | the price at the front of the bid queue |
| OrderBooks.OrderBook.BestAsk | src/book.rs:118-120 | the price at the front of the ask queue |
| OrderBooks.OrderBook.Spread | src/book.rs:125-130 | strictly positive whenever both sides have orders |
| OrderBooks.OrderBook.Depth | src/book.rs:136-151 | lists the best prices in order, each with everything that rests there, leaving none out |
| LevelLoops.FillLevel | src/book.rs:393-468 | filling one level is the same part of one pass over the whole queue; cached total and index stay exact |
| LevelLoops.LevelTurn | src/book.rs:411-427 | the saturating subtraction of a trade never saturates, and the total stays the sum of the queue |
| LevelLoops.RemoveFromLevel | src/book.rs:532-537 | finds and removes the order with the id and keeps the cached total exact |
| LevelLoops.ExpiredIn | src/book.rs:263-281 | collects the ids of exactly the expired orders of a side, front to back |
| LevelLoops.TotalsAreCrossing | src/book.rs:476-481 | the cached totals of the levels in range add up to what rests within the taker's limit |
| Levels.PushIsEnqueue | src/book.rs:502-514 | pushing into the entry of a price, new or old, is enqueueing in price-time order |
| Levels.RangeIsReach | src/book.rs:321-327 | the key range scanned, with the extreme price for market orders, is exactly the levels the taker reaches |
| Levels.CancelUpdates | src/book.rs:214-244 | replacing or pruning the level an order left removes just that order from the queue |
| IdIndexes.IndexLooksUp | src/book.rs:212 | the index knows exactly the resting ids, with their true side and price |
| IdIndexes.IndexForgets | src/book.rs:212 | dropping an id from the index matches dropping its order from the book |
| Replays.Submit | src/book.rs:169-308 | every call acts and answers like the reference book |
| Replays.Replay | src/book.rs:100-308 | any allowed run from an empty book ends in the reference contents with the reference replies |
| BookInvariant.ApplyKeepsInv | src/book.rs:86-94 | every operation keeps queues sorted, live, distinct and bounded, sides disjoint, and the book uncrossed |
| BookInvariant.ReachableBookIsSound | src/book.rs:8-14 | in every reachable book nothing filled rests, prices are in order, ids are unique and every bid is strictly below every ask |
| TimePriority.ReachableBookIsInArrivalOrder | src/book.rs:10-14 | in every reachable book each resting order is the one latest submitted under its id, further filled, and orders at one price stand in the order of submission |
| Conservation.RunConserves | src/book.rs:169-291 | over any run, for each id: lots held and submitted are lots held at the end, traded as taker and maker, and withdrawn by cancelling, purging or never resting |
| Conservation.EveryLotIsAccountedFor | src/book.rs:169-291 | for an order whose id is not reused these add up to its remainder at submission |
| RunChecks.FreshOrdersAreAllowed | src/order.rs:12 | any run with unique ids, no overfilled fill-or-kill order and submissions that fit u64 together meets the preconditions of every call |
| BookInvariant.CancelExact | src/book.rs:208-247 | a cancellation takes one order and no other off its queue, or changes nothing |
| MatchingTheorems.SweepTradesTheMinimum | src/book.rs:401-428 | a match trades exactly the lesser of the taker's remainder and the quantity within its limit |
| MatchingTheorems.FokAllOrNothing | src/book.rs:316-319 | fill-or-kill trades everything or leaves the book unchanged, and trades exactly when enough rests within the limit |
| MatchingTheorems.InsertTradesTheMinimum | src/book.rs:169-206 | any other order trades the lesser of remainder and crossing quantity, or nothing if expired |
| MatchingTheorems.FillsAreAQueuePrefix | src/book.rs:401-428 | fills take the makers from the front one each at the maker's price, exhaust all but the last, and account for the drop in liquidity |
| MatchingTheorems.AdmissibleByTotals | src/book.rs:500-516 | what is asked of a submission, by the totals resting on both sides before it |
| MatchingTheorems.PriceTimePriority | src/book.rs:10-14 | prices never improve along the fills, no maker trades twice, and what is left is at no better price than, and was queued behind, every maker that traded |
| BookOutcomes.InsertOutcome | src/book.rs:169-206 | written out on prices, quantities, type and expiry: how many lots a submission trades, whether its remainder joins its side and where, and that nothing else happens there |
| BookOutcomes.ExpiryOutcome | src/book.rs:171-175 | a good-till-date order with `0 < now` and expiry at or before `now` leaves no trace; every other order is treated as at `now` 0 |
| BookOutcomes.FillsOutcome | src/book.rs:401-428 | written out likewise: each fill's ids, price, quantity and time, and what is left of the other side |
| BookOutcomes.CancelOutcome | src/book.rs:211-247 | what a cancellation answers and takes, by the places of the orders |
| BookOutcomes.PurgeOutcome | src/book.rs:257-291 | the places of the orders that a purge returns and leaves, by expiry at or before `now` |
| BookOutcomes.CancelManyOutcome | src/post_only.rs:68-93 | the ids that cancelling a side or all answers with, one by one, and what stays |
| BookOutcomes.BestPriceOutcome | src/book.rs:111-120 | the best bid is the greatest, the best ask the least resting price |
| BookOutcomes.VerdictOutcome | src/post_only.rs:30-56 | market orders are invalid; another order matches if and only if some opposite order rests at its limit or better |
| MatchingTheorems.RemainderRests | src/book.rs:185-203 | the own side changes only by the remainder, short by what traded, behind every order of equal or better price |
| MatchingTheorems.SplitTaker | src/book.rs:315-390 | two immediate takers leave the book of one taker for the sum, with the same total per maker |
| Mirror.InsertCommutesWithFlip | src/book.rs:315-390 | mirroring prices and sides before or after an insertion gives the same fills and book |
| Mirror.AdmissibleCommutesWithFlip | src/book.rs:315-390 | an order may be submitted if and only if its mirror image may be to the mirrored book |
| Mirror.FlipIsInvolution | src/book.rs:111-120 | mirroring twice changes nothing, so each side is the mirror of the other |
| Mirror.CancelCommutesWithFlip | src/book.rs:214-244 | the same for cancellation |
| Mirror.BestPricesCommuteWithFlip | src/book.rs:111-120 | best bid and best ask change roles under mirroring |
| Purging.PurgeExact | src/book.rs:249-256 | an order is returned if and only if it rests, is good till a date and that date is at or before `now`; all others stay as a valid book, and a second purge finds nothing |
| Purging.SurvivorsKeepOrder | src/book.rs:283-290 | survivors keep their relative order |
| Purging.PurgeAbsorbs | src/book.rs:257-291 | an earlier purge followed by a later one is the later one |
| PostOnly.CheckPostOnly | src/post_only.rs:30-56 | the verdict of the best opposite price of the contents |
| PostOnlyRules.VerdictIsExact | src/post_only.rs:25-28 | an insertion trades if and only if the verdict is WouldMatch and the order is live and, for fill-or-kill, enough rests |
| PostOnlyRules.VerdictMissesFillOrKill | src/post_only.rs:38-42 | a concrete fill-or-kill order with verdict WouldMatch that trades nothing |
| PostOnlyRules.RestsExactlyWhen | src/post_only.rs:6-8 | an order judged WouldRest does not trade, and is on its side afterwards if and only if it is of a resting kind, unfilled and unexpired; otherwise the book is unchanged |
| PostOnlyRules.VerdictMissesImmediateOrCancel | src/post_only.rs:6-8 | a concrete immediate-or-cancel order judged WouldRest that never rests |
| PostOnlyRules.PassiveInsertThenCancel | src/post_only.rs:27-28 | an order that would rest rests whole, and cancelling it gives back the order and the old book |
| PostOnly.LevelsAreCanonical | src/book.rs:44-53 | the levels of a side are determined by its queue |
| PostOnly.InsertThenCancel | src/post_only.rs:27-28 | on the engine that restores levels, totals and index field by field |
| PostOnly.CancelAllSide | src/post_only.rs:68-78 | empties one side, lists each of its ids once in priority order, leaves the other side alone |
| PostOnly.CancelAll | src/post_only.rs:81-93 | empties the book and lists bids before asks |
| Positions.PositionTracker.ApplyFill | src/position.rs:87-148 | computes average-cost accounting in machine integers, exactly for every quantity that fits i64, and touches no other symbol |
| Positions.FillOutcome | src/position.rs:87-148 | every field after a fill, for opening, adding, reducing, closing and flipping |
| Positions.FirstFillOutcome | src/position.rs:88-91 | a symbol without fills starts from zeros |
| Positions.FilledExactlyWhen | src/position.rs:95-98 | a fill is booked as the trade it is if and only if its quantity fits i64 |
| Positions.PositionTracker.MarkToMarket | src/position.rs:155-166 | unrealized P&L is lots times price difference whenever that fits i64, and its low 64 bits otherwise |
| Positions.AverageFits | src/position.rs:113-121 | the i128 operations never saturate and the cast of the average loses nothing |
| Accounting.StepIdentity | src/position.rs:103-147 | a fill moves realized P&L less position at cost by the cash flow and the truncation remainder |
| Accounting.RemainderBound | src/position.rs:112-121 | only additions truncate, and by less than one tick per lot of the new position |
| Accounting.LedgerIdentity | src/position.rs:87-148 | over any run realized P&L is net cash plus open position at cost plus the bounded remainders |
| Accounting.AverageStaysInHull | src/position.rs:103-145 | the average stays between least and greatest price that opened or added to the position |
| Accounting.ReducingTradeSplits | src/position.rs:122-146 | a closing or flipping fill cut in two at one price books the same |
| Settlement.DealIsZeroSum | src/position.rs:83-86 | one deal adds no lots overall and no P&L but its truncation loss |
| Settlement.RunsAreZeroSum | src/book.rs:415-421 | booking all fills of any run to takers and makers nets to zero lots, and at any mark total P&L is the truncation losses |
| Settlement.MakersAreOpposite | src/book.rs:25-38 | every fill has positive quantity and a maker resting on the side opposite to the taker |
| TrackerRuns.ApplyAll | src/position.rs:87-148 | after any run of fills for any mix of symbols, each symbol's fields are the account of its own trades |
| TrackerRuns.Track | src/position.rs:87-148 | from no positions, net lots, realized P&L, average price and trade count of every symbol obey the ledger identity and the price hull of its trades |
| TrackerRuns.FieldsAccount | src/position.rs:87-148 | the same as a statement about any run and any symbol |
| Clearing.TrackerBooks | src/position.rs:87-91 | a fill applied by the tracker is one booking step on the accounts behind it |
| Clearing.TrackerSettles | src/position.rs:87-148 | the bookings of any list of deals leave the settled accounts in the tracker |
| Clearing.MarkAll | src/position.rs:155-166 | every position is revalued and nothing else changes |
| Clearing.SettledIsBalanced | src/position.rs:83-86 | after the bookings of any deals and a revaluation, net quantities sum to zero and realized plus unrealized P&L to the truncation losses |
| Clearing.TradeAndClear | src/book.rs:415-421 | running the engine and booking each fill for taker and maker balances the tracker's fields, for every run and ownership |
| RunChecks.PricesAndLotsKeepRange | src/position.rs:87-166 | if prices and mark are within a bound and all submitted lots at twice that bound fit i64, no booking of the run and no revaluation leaves i64 |
| FixCodec.Serialize | src/fix.rs:194-220 | produces the wire form, and that is, byte by byte: begin string, length of the body, body, and sum of all before modulo 256 in three digits |
| FixMessages.WireOutcome | src/fix.rs:194-227 | the same as a statement about every message; the begin string is the message's own or `FIX.4.4` |
| FixCodec.SerializeBody | src/fix.rs:199-210 | the loop over the map writes the body of the wire form |
| FixTheorems.BodyByAscendingTag | src/fix.rs:202-209 | that body holds every field but 8, 9 and 10 once, in ascending tag order |
| FixCodec.PushField | src/fix.rs:222-227 | appends one tag=value field with its separator |
| FixCodec.ParseAllFields | src/fix.rs:137-154 | the loop over chunks records the fields the wire denotes, or the first error |
| FixCodec.SplitForVerification | src/fix.rs:156-184 | the two scans find the envelope: the first length tag and the last checksum field |
| FixCodec.ParseMessage | src/fix.rs:99-135 | accepts a buffer if and only if it is acceptable, and then returns its fields |
| FixAcceptance.AcceptedExactlyWhen | src/fix.rs:99-135 | acceptable means, on the bytes: every piece is readable, tag 9 is the length from the end of the first length field to the start of the last checksum field, tag 10 the sum of the bytes before that field modulo 256, tag 8 not empty |
| FixAcceptance.EnvelopeDecides | src/fix.rs:113-133 | with fields that parse, a wrong length or sum is an error |
| FixAcceptance.ParseOutcome | src/fix.rs:99-135 | which error a buffer gets, in which order and with which numbers |
| FixFields.FieldsOutcome | src/fix.rs:137-154 | for any pieces between separators: each tag has the value of its last piece, or the error is that of the first piece that is not UTF-8, has no equals sign, or no number of 32 bits before it |
| Unicode.Utf8ExactlyWhen | src/fix.rs:143-144 | text is what encoding scalar values gives, and nothing else |
| ByteStrings.DecimalParses | src/fix.rs:148-150 | printing and parsing a number are inverse within the integer width |
| FixMessages.MessageReadsBack | src/fix.rs:94-135 | on the message itself: tag 8 as it was or `FIX.4.4`, and every other tag but 9 and 10 as it was, are read back if and only if no value sent holds a separator and a begin string is non-empty without a length tag |
| FixTheorems.RoundTrip | src/fix.rs:94-135 | parsing the wire form returns the message with its envelope if and only if no value holds a separator and the begin string is non-empty without a length tag |
| FixTheorems.RoundTripFails | src/fix.rs:160-171 | a concrete begin string that is not read back |
| FixTheorems.NormalSerialisesTheSame | src/fix.rs:190-220 | re-serialising what was read back gives the same bytes |
| FixTheorems.SerialiseIsInjective | src/fix.rs:190-220 | equal wire forms of values without separators mean equal values at every tag but 9 and 10, a missing tag 8 counting as `FIX.4.4` |
| FixSlicing.SlicesOutOfOrderExactlyWhen | src/fix.rs:183 | parsing slices out of order if and only if the fields parse as UTF-8 text, tags 8, 9 and 10 are there and numeric, and every length tag stands behind every checksum field |
| FixSlicing.SlicesOutOfOrder | src/fix.rs:183 | a concrete buffer on which it does |
| FixSlicing.SlicesInOrder | src/fix.rs:183 | one length tag in front of one checksum field rules it out |
| FixSlicing.WireSlicesInOrder | src/fix.rs:183 | it never happens on a serialised message |
| FixCorruption.CorruptionIsDetected | src/fix.rs:116-129 | changing any one byte before the checksum field of any message yields an error and never an out-of-order slice; only the last of these bytes needs values without separators |
| FixSeparator.SeparatorNeedsCleanValues | src/fix.rs:173-181 | a concrete message with separators in a value whose wire form still parses, to another message, after that last byte is changed |
| FixCorruption.OneByteDoesNoHarm | src/fix.rs:99-135 | changing any one byte of the wire, checksum field included, yields an error, except in three spellings of the same checksum, where the message sent is read back |
| AuditEncoding.CanonicalPayload | src/signed_order.rs:49-60 | the buffer holds the canonical layout |
| AuditEncoding.PushLen | src/signed_order.rs:240-243 | appends length and content |
| AuditEncoding.PayloadRoundTrip | src/signed_order.rs:49-60 | a decoder reads every payload back from its canonical bytes |
| AuditEncoding.PayloadBytesInjective | src/signed_order.rs:47-60 | distinct payloads have distinct canonical bytes |
| AuditEncoding.CanonicalEvent | src/signed_order.rs:153-161 | the 81-byte buffer filled range by range holds the event layout |
| AuditEncoding.PayloadLayout | src/signed_order.rs:49-60 | where each field of a payload stands, its integers byte by byte, and the side tags 1 and 2 |
| AuditEncoding.EventLayout | src/signed_order.rs:126-161 | where each field of an event stands, with the kind tags 1 to 6 |
| AuditEncoding.ZeroIsZero | src/signed_order.rs:190-195 | the head of an empty log is 32 zero bytes |
| AuditEncoding.EventBytesInjective | src/signed_order.rs:153-161 | distinct events have distinct canonical bytes |
| AuditChain.OrderAuditLog.constructor | src/signed_order.rs:190-195 | an empty log with the zero head |
| AuditChain.OrderAuditLog.Append | src/signed_order.rs:198-208 | links the event to the old head and keeps the log the record of its history |
| AuditChain.OrderAuditLog.Verify | src/signed_order.rs:224-233 | true exactly if every link and the head are right |
| AuditChain.AppendedLogsVerify | src/signed_order.rs:222-233 | every history of appends leaves a log that verifies |
| AuditChain.ChainedPairwise | src/signed_order.rs:224-233 | a chain verifies if and only if each event carries the hash of the one before and the first carries zeros |
| AuditChain.SameHeadSameEvents | src/signed_order.rs:3-7 | two verifying lists of events with one head are equal, or their own bytes collide, or they differ in length and the surplus of the longer one hashes to zero |
| AuditChain.TamperEvidence | src/signed_order.rs:3-7 | two histories with one head are equal entry by entry and payload by payload, or the bytes they hashed collide, or exactly one is empty and the last event of the other hashes to zero |
| AuditChain.AlteredEventIsDetected | src/signed_order.rs:222-233 | altering an event under an unchanged head fails verification unless two of the lists' own byte strings collide |
| Risk.PassesIffWithinLimits | src/risk.rs:118-170 | with limits enabled an order passes exactly when size, notional, projected position and rate are within limits |
| Risk.CheckOutcome | src/risk.rs:118-170 | which limit is reported when several are broken, and with which numbers |
| Risk.RateLimitPerPeriod | src/risk.rs:160-180 | if every order that passes is recorded before the next check, no more orders pass between two resets than the rate limit allows, whatever the count at the start |
| Risk.PassesWhileRateLasts | src/risk.rs:118-180 | an order of such a run passes if and only if it is within the other limits and the rate limit is not used up since the last reset |
| Risk.RunSteps | src/risk.rs:118-180 | the manager, recording what passes and resetting between periods, answers every run that way |
| Bulk.BulkValidator.Validate | src/bulk.rs:64-139 | both result lists are the outcomes of judging each order against the progress of the batch, in input order |
| BulkOutcomes.ValidationListsFates | src/bulk.rs:83-136 | both result lists are the fates of the orders in input order, a fate being read off the batch alone |
| BulkOutcomes.RefusedExactlyWhen | src/bulk.rs:84-118 | an order is refused as duplicate, empty or self-trade if and only if its id came before, it has no quantity, or prevention is on and an earlier order of the other side that got as far as the risk check is priced at or through it |
| BulkOutcomes.AcceptedExactlyWhen | src/bulk.rs:120-135 | every other order is accepted or refused as the risk check says at the position the accepted ones led to |
| BulkOutcomes.SeparatePricesPass | src/bulk.rs:96-118 | an ask and then a lower bid are both accepted |
| BulkTheorems.OneOutcomeEach | src/bulk.rs:83-136 | every order has exactly one entry in one list, at the place its predecessors leave for it |
| BulkTheorems.AcceptedIdsAreNew | src/bulk.rs:84-88 | accepted ids are distinct |
| BulkTheorems.PositionIsSumOfCasts | src/bulk.rs:123-129 | for all rules and batches the running position is the start plus the signed accepted quantities less 2^64 for each that does not fit i64 |
| BulkTheorems.PositionIsSumOfAccepted | src/bulk.rs:123-129 | if the maximal order size, or every quantity of the batch, fits i64, it is at every point the start plus the signed quantities accepted so far |
| BulkTheorems.PositionWithinLimit | src/bulk.rs:120-131 | with limits enabled the running position is within the limit after every acceptance, and in such a batch so is the sum of what was accepted |
| BulkTheorems.KeepsPositionExactlyWhen | src/bulk.rs:123-129 | the running position is the true one in every batch if and only if limits are enabled and let no quantity above i64 through |
| BulkTheorems.KeepsLimitExactlyWhen | src/risk.rs:148-159 | with limits enabled, the accepted quantities stay within the position limit in every batch under exactly that condition |
| BulkTheorems.OversizedOrderIsMiscounted | src/risk.rs:148-154 | for all other rules a concrete accepted order that takes the running position to 0 and the true one to -2^64 |
| BulkTheorems.LimitsKeepRange | src/risk.rs:148-154 | if start and limit plus one maximal order fit i64, no batch of any length overflows |
| BulkTheorems.AcceptedDoNotCross | src/bulk.rs:96-118 | with self-trade prevention every accepted bid is below every accepted ask |
| BulkTheorems.AcceptedBatchesDoNotTrade | src/bulk.rs:96-118 | the accepted orders of a batch, submitted to an empty book, produce no fill, if none is a market order, no fill-or-kill order is overfilled and each side's total fits u64 |
| BulkTheorems.MarketOrdersTrade | src/bulk.rs:96-118 | a concrete batch with a market order, accepted in full, whose two orders trade with each other |

## Left out

- OrderBooks.OrderBook.InsertWithTime: asks that the id is not resting, as `src/order.rs:12` promises, that a fill-or-kill order is not overfilled, and that what matching leaves of a resting order keeps its side's total within u64; the source checks none of this. `FreshOrdersAreAllowed` gives a check made once for a run.
- OrderBooks.OrderBook.Spread: asks that the difference of the best prices fits i64; the source subtracts without a check.
- Positions.PositionTracker.ApplyFill: asks that no plain i64 or u64 operation overflows, which the source does not check; the casts are modelled.
- TrackerRuns.Track: is about runs on which no plain operation overflows and every quantity fits i64; so are `ApplyAll`, `Clear` and `TradeAndClear`, which also ask that the final revaluation fits i64. `PricesAndLotsKeepRange` gives a check made before the run.
- Positions.PositionTracker.MarkToMarket: asks that the price difference fits i64.
- Bulk.BulkValidator.Validate: asks that no i64 addition along the batch overflows; `LimitsKeepRange` gives a check made once before the call.
- FixCorruption.CorruptionIsDetected: for the separator in front of the checksum field, is about messages without separators in their values; `SeparatorNeedsCleanValues` shows why.
- BulkTheorems.AcceptedBatchesDoNotTrade: leaves out market orders, whose price is ignored and which can trade (`MarketOrdersTrade`).
- Price levels and orders are values stored in the maps: the source owns them exclusively, so updating through a mutable borrow is replacing the entry.
- `fill_level_bid` and `fill_level_ask`, which have the same text, are one method here; so are the two collection loops of `purge_expired`.
- Stop triggering is not modelled, because the source has none.
- Expiry of resting makers during matching: the source does not look at it, and neither does any claim here.
- Which orders a self-trade refusal compares against: the tracked best prices move before the risk check, so the refused order need not cross an accepted one.
- The batch-size limit and the rate counter are not applied inside `validate`.
- Error texts: errors are told apart by kind. The u32 sum of bytes is exact here; its residue modulo 256 is the same if it wraps.
- `SliceOutOfOrder` is a value here where the source panics.
- Ed25519 signing and the hash function itself, which are in another crate.
- Vector capacities, debug formatting, the C interface and its bindings.
