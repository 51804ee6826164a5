# CppTrader: a verified model of its matching engine, order books and wire formats

This project models the hard parts of CppTrader and of the kdb+ client shipped beside it, and proves
what they are for. Run `dafny verify dfyconfig.toml`.

## What is modelled

**The matching engine.** `MarketManagers.MarketManager` is the engine as the source writes it: the public
operations, the re-entrant pair `ReduceOrder`/`Match`, stop activation from inside `Match`, walks along
queues with a saved next node, the one-sided and two-sided chain calculators, and error codes. It works on
`OrderBooks.OrderBook`, whose four trees hold levels with a queue, three cached volumes and a count
(`Ladder`), and on a map from order ids to nodes (`IdIndex`). Each of its methods is proved to compute a
function of `BookSpec`, which knows only four flat lists in price-time order, last and matching prices, and
the log of handler calls. So every theorem about `BookSpec` is a theorem about the engine:

- `Invariants`, `Runs`, `Crossing`: over every run with automatic matching best bid stays below best ask;
  `Match` ends uncrossed with no triggered stop level; it takes the same volume from both sides.
- `Operations`, `Offers`: what every public operation does to lists and log, said from the fields of its orders.
- `Activations`: stop orders are activated after each pair of crossing levels, buy stops first.
- `Logs`: over every run no report is taken back, and last prices are those of the last reported executions.
- `Fills`: an incoming order takes exactly a front of the other side; a 'Fill-Or-Kill' order is filled
  entirely or changes nothing, and the calculator says which exactly.
- `Trades`, `Ledger`: quantities reported as bought and sold agree, nobody trades beyond a limit, orders
  reported as added less those deleted are the listed ones, and no order is filled beyond its quantity.
- `StopOrders`, `AtRest`: a triggered stop level is activated order by order, once each, in time order; when an
  operation leaves a stop order triggered; and over which runs none is.
- `WholeOrders`: over every run, crossed books included, no 'All-Or-None' order is filled in part.
- `TimePriority`: how a pass over two crossing levels pairs their orders, and exactly when it keeps time priority.
- `Chains`, `Uncrossing`: what the executor and the two-sided calculator of 'All-Or-None' orders do in every
  case, and when matching such orders ends uncrossed.
- `MarketOrders`, `Duplicates`: what slippage bounds, when a sell market order trades at all, and what a
  refused id leaves behind.

Termination is proved throughout; the measure of matching is the number of waiting stop orders, then the
number of resting orders plus their volume.

**Trailing stops** (`TrailingStops`): the trailing price, what it does over any sequence of market prices,
and the recalculation that moves orders between levels while it walks over the levels and jumps back.
**Best-level pointers** (`BestLevels`): why a constant-time step finds the next best level of a balanced tree.
**The aggressive book** (`AggressiveBooks`): sorted arrays, a shared level pool and cached level indices
refine the plain sum of live quantities by symbol and signed price.
**The ITCH framer** (`ItchStream`): the resumable reader and its independence of how the bytes are cut.
**kdb+ IPC** (`KdbText`, `KdbIpc`, `KdbSerializer`, `KdbDeserializer`): the JavaScript serializer, its size
computation and the reader.

`Options`, `Orders` and `PriorityList` hold what these share. In lemmas and methods `hide` statements keep
definitions out of proofs that do not need them.

## Where the code differs from what it promises

- `Match()` documents that each book ends with best bid below best ask (`market_manager.h:216-223`). With
  'All-Or-None' orders it does not: `Anomalies.AllOrNoneStaysCrossed` gives a book on which matching gives up
  at once, `Uncrossing.StuckOnTheWay` one on which it begins, trades, and then gives up. With one price on
  either side and only 'All-Or-None' orders on one of them, the promise is kept exactly when all that the
  smaller side has can be cut off the front of both without splitting such an order
  (`Uncrossing.UncrossesIff`). On any book, matching ends crossed only when the calculator finds no volume,
  so that, with such an order in front, the best queues have none in common (`Uncrossing.CrossedMeansStuck`);
  whether matching begins at all is decided by `Chains.StuckWithoutCut`. Without such orders the promise
  holds (`Crossing.MatchUncrosses`).
- The queues of two crossing levels are paired by position, so a later order can be filled before an earlier
  one (`Anomalies.LaterOrderFilledFirst`); `TimePriority.FromFrontIff` says exactly when this does not happen.
- The two-sided chain looks at no price when it goes to a further level, and its swap exchanges orders but
  not levels: `Anomalies.SoldBelowItsLimit` and `Anomalies.SoldMoreThanBought`. `Chains.PassIff` says exactly
  when both sides lose the calculated volume, when bought equals sold, and when all limits are kept.
- `ModifyOrder` does not subtract what was executed, so with matching on or off the order can be overfilled
  afterwards exactly when it had traded before (`Ledger.ModifiedFitsIff`); `MitigateOrder` does subtract it
  (`Ledger.MitigatedFits`).
- Every operation ends by resetting the matching prices, which can leave a stop order triggered
  (`Anomalies.StopLeftTriggered`); exactly when, if nothing was to be activated, is
  `StopOrders.LeftTriggeredIff`. `StopOrders.NoneLeftTriggered` covers books with stops to activate on both
  sides. From it: on a book at rest, cancelling or reducing any order and adding one with a fresh id leave no
  stop triggered, whatever they set off (`AtRest.DeleteRests`, `AtRest.ReduceRests`, `AtRest.AddRests`). A
  modification or replacement does not either unless it trades and takes away the order that kept stops from
  being triggered; after a modification or an execution reported from outside, the book in front of the reset
  decides (`AtRest.ModifyRests`, `AtRest.ModifyDecides`, `AtRest.ReplaceRests`, `AtRest.ExecuteRests`).
  `AtRest.RunRests` is about whole runs.
- A sell market order compares and assigns with `ORDER_INT_MAX` (line 1191), so that it does not reach
  ordinary bids: `MarketOrders.SellTradesIff` has the exact condition. The model follows the code. The
  constant has fifteen hexadecimal digits, 60 bits.
- A duplicate order id is noticed only after the new order has been matched, and the trades stay
  (`Anomalies.TradesOfDuplicateStay`); `Duplicates.AddDuplicateIff` and `Duplicates.ReplaceDuplicateIff` say
  exactly when the lists are left as they were.
- A percentage trailing step shrinks with a falling price, so skipping the recalculation can leave a sell
  order at a stop price it should have left (`TrailingStops.PercentSellSlips`);
  `TrailingStops.StaysSettledIff` says exactly which orders. Percentages are limited to ten, -1000, where the
  message of the assertion speaks of -10000 (`order.cpp:82-83`).
- The comment at `c.js:155` says that undefined is serialized as null; the code throws. `u8u16` writes
  surrogate pairs as four bytes, which `u16u8` skips, and text with a leading backtick comes back without
  it: `KdbIpc.RoundTripIff` has the exact condition.

## Model

| member | source | states |
|---|---|---|
| MarketManagers.MarketManager.AddSymbol | source/trader/matching/market_manager.cpp:36-59 | the symbol is known afterwards, and the error says whether it was before |
| MarketManagers.MarketManager.DeleteSymbol | source/trader/matching/market_manager.cpp:61-80 | the symbol is unknown afterwards, and the error says whether it was before; books stay |
| MarketManagers.MarketManager.AddOrderBook | source/trader/matching/market_manager.cpp:82-112 | unknown symbols and symbols with a book are refused and change nothing; otherwise there is one new, empty book; all other books untouched |
| MarketManagers.MarketManager.AddOrder | source/trader/matching/market_manager.cpp:135-450 | validation and look-up errors change nothing; otherwise book and error code are those of the flat engine, with ids of other books taken into account, and all books stay valid |
| MarketManagers.MarketManager.ReduceOrder | source/trader/matching/market_manager.cpp:452-555 | error codes in the order of the checks, nothing changed on an error, otherwise the flat engine's reduction and settlement |
| MarketManagers.MarketManager.DeleteOrder | source/trader/matching/market_manager.cpp:815-875 | the same for deletion |
| MarketManagers.MarketManager.ModifyOrder | source/trader/matching/market_manager.cpp:557-678 | the same for modification, plain and mitigated |
| MarketManagers.MarketManager.ReplaceOrder | source/trader/matching/market_manager.cpp:680-802 | the same for replacement, including the duplicate id that is found after matching |
| MarketManagers.MarketManager.ExecuteOrder | source/trader/matching/market_manager.cpp:877-1057 | the same for executions reported from outside, at the order's price or a given one |
| MarketManagers.MarketManager.MatchAll | source/trader/matching/market_manager.cpp:1059-1064 | every book becomes its flat match |
| MarketManagers.MarketManager.EnableMatching | include/trader/matching/market_manager.h:212 | from uncrossed books without 'All-Or-None' orders, matching is on and every book matched |
| MarketManagers.MarketManager.DisableMatching | include/trader/matching/market_manager.h:214 | all books stay valid for manual matching |
| MarketManagers.MarketManager.Match | source/trader/matching/market_manager.cpp:1066-1167 | the nested loops with moving level and order pointers, re-entered from reductions, compute the flat match, or nothing when called internally |
| MarketManagers.MarketManager.MatchLevels | source/trader/matching/market_manager.cpp:1082-1152 | the walk over two queues with saved next pointers is the flat pairing by position |
| MarketManagers.MarketManager.MatchPair | source/trader/matching/market_manager.cpp:1110-1145 | the smaller of two orders is deleted and the other reduced, at the smaller one's price, and both saved next nodes stay where they were |
| MarketManagers.MarketManager.MatchMarket | source/trader/matching/market_manager.cpp:1169-1199 | the loop-free computation of the limit, as written on both sides, and the matching compute the flat market order, whose meaning is stated in `MarketOrders` |
| Operations.AddLimitDoes | source/trader/matching/market_manager.cpp:189-240 | the other side loses from its front the order's volume at its limit, with all reports; the rest of the order waits with its price behind all that are at least as good, or is deleted if immediate, or refused if its id is in use |
| Operations.AddMarketDoes | source/trader/matching/market_manager.cpp:160-187 | with matching on the other side loses the volume within the slippage, buy or sell, in parts or whole; the log grows by the addition, the trades and the deletion; with matching off only the two reports are new |
| Operations.AddMarketAlone | source/trader/matching/market_manager.cpp:160-187 | the same on the book the operation ends with, when there are no stop orders |
| Operations.AddStopDoes | source/trader/matching/market_manager.cpp:242-332 | a stop order whose price the market has reached trades as a market order and is deleted; otherwise it waits in its list |
| Operations.AddStopLimitDoes | source/trader/matching/market_manager.cpp:334-450 | a stop-limit order whose stop price is reached trades at its limit price and its rest waits there as a limit order; otherwise it waits as it is |
| Operations.ReduceDoes | source/trader/matching/market_manager.cpp:457-555 | the order at its position has the quantity less left to fill, or is gone and reported when nothing is left |
| Operations.DeleteDoes | source/trader/matching/market_manager.cpp:820-875 | the order at its position is gone and reported |
| Operations.ExecuteDoes | source/trader/matching/market_manager.cpp:877-1057 | one report at the given price, the side's prices set to it, and the quantity moved from leaves to executed, with deletion when nothing is left |
| Operations.ModifyDoes | source/trader/matching/market_manager.cpp:567-678 | plain and mitigated: the order leaves its list, takes its volume at the new price, and what is left has the new price and quantity, old id, side, type and stop price, and stands behind all that are at least as good |
| Operations.ReplaceDoes | source/trader/matching/market_manager.cpp:685-802 | the order goes, and one with the new id, price and quantity and nothing else executed takes its volume at the new price and waits there, unless the id is in use |
| Offers.OrderTakes | source/trader/matching/market_manager.cpp:1207-1298 | lists, reports and matching prices after an order was matched: the largest cut within its limit, or all or nothing |
| Offers.MarketTakes | source/trader/matching/market_manager.cpp:1169-1199 | the same for a market order on either side, at the limit that best price and slippage give |
| Offers.StopTrades | source/trader/matching/market_manager.cpp:1380-1407 | an activated stop order trades as a market order, whole if 'Fill-Or-Kill', and is deleted |
| Offers.StopLimitTrades | source/trader/matching/market_manager.cpp:1409-1443 | an activated stop-limit order trades at its limit price, and its rest is listed as a limit order at that price or deleted |
| Orders.ValidIff | source/trader/matching/order.cpp:15-65 | which orders are accepted, and the codes for ids and quantities |
| Activations.TriggeredIff | source/trader/matching/market_manager.cpp:1335-1346 | buy stops are triggered by best ask and remembered ask price at or above the stop price, sell stops by the bids at or below it |
| Activations.BetweenLevels | source/trader/matching/market_manager.cpp:1151-1156 | after a pass over two crossing levels the triggered level of buy stops, then that of sell stops, is activated and reported before anything else that matching does |
| Activations.OnUncrossed | source/trader/matching/market_manager.cpp:1300-1333 | the same on a book that does not cross, where matching does nothing when neither level is triggered |
| Activations.StopTradesBetween | source/trader/matching/market_manager.cpp:1066-1167 | a stop that buys the second ask between two crossing levels, so that the second bid is left |
| Logs.RunKeepsLastPrices | include/trader/matching/order_book.inl:138-144 | over every run, in any mode, the last bid and ask prices are those of the last executions reported for a buy and a sell, and reports stay |
| MarketOrders.BuyPaysUpToSlippage | source/trader/matching/market_manager.cpp:1172-1183 | a buy market order pays at most the best ask plus its slippage, capped at the largest price, filled in parts or whole |
| MarketOrders.BuyTakesWithinSlippage | source/trader/matching/market_manager.cpp:1172-1183 | filled in parts it takes from the front the largest volume up to what it asks for and what there is up to that price that splits no 'All-Or-None' order, at the prices of the orders it meets; otherwise all it asks for or nothing |
| MarketOrders.SellTradesIff | source/trader/matching/market_manager.cpp:1184-1195 | a sell market order changes nothing exactly when its limit, as written, does not reach the best bid, or an 'All-Or-None' order or its own wholeness is in the way; for a slippage that is a price, reaching means a best bid at the largest price or above |
| MarketOrders.SellMissesOrdinaryBids | source/trader/matching/market_manager.cpp:1184-1195 | no ordinary bid is reached by a sell market order, partly fillable or not |
| MarketManagers.MarketManager.MatchOrder | source/trader/matching/market_manager.cpp:1207-1298 | the level loop computes the flat fill or the flat chain |
| MarketManagers.MarketManager.MatchLevel | source/trader/matching/market_manager.cpp:1247-1296 | one level: each reduction re-enters matching, and the saved next order stays live |
| MarketManagers.MarketManager.CalculateMatchingChain | source/trader/matching/market_manager.cpp:1445-1488 | the loop over levels and queues returns the flat chain volume |
| MarketManagers.MarketManager.CalculateTwoSidedChain | source/trader/matching/market_manager.cpp:1490-1566 | the two-sided loop with its swaps returns the flat walk's volume, and terminates |
| MarketManagers.MarketManager.ExecuteMatchingChain | source/trader/matching/market_manager.cpp:1568-1635 | executing over levels is the flat execution, remaining volume as an unsigned word |
| MarketManagers.MarketManager.ActivateStopOrders | source/trader/matching/market_manager.cpp:1300-1333 | the activation loop computes the flat activation, true when anything was activated |
| MarketManagers.MarketManager.ActivateLevel | source/trader/matching/market_manager.cpp:1335-1378 | all orders of the triggered level, each by its saved next pointer |
| MarketManagers.MarketManager.ActivateStopOrder | source/trader/matching/market_manager.cpp:1380-1407 | a stop order leaves its tree, trades as a market order and is erased |
| MarketManagers.MarketManager.ActivateStopLimitOrder | source/trader/matching/market_manager.cpp:1409-1443 | a stop-limit order leaves its tree, trades as a limit order and rests or is erased |
| OrderBooks.OrderBook.AddOrder | source/trader/matching/order_book.cpp:127-154 | linking into a level, made when missing, is insertion in price-time order; cached volumes and counts stay sums over the queues |
| OrderBooks.OrderBook.ReduceOrder | source/trader/matching/order_book.cpp:156-186 | the order at its position, unlinked when nothing is left, the level gone when it is empty, all sums kept |
| OrderBooks.OrderBook.DeleteOrder | source/trader/matching/order_book.cpp:188-215 | the order and perhaps its level are gone, all sums kept |
| OrderBooks.OrderBook.NextLevel | include/trader/matching/order_book.inl:62-92 | the best price worse than the level's |
| OrderBooks.OrderBook.GetMarketPriceAsk | include/trader/matching/order_book.inl:117-122 | the smaller of the matching ask price and the best ask of the flat lists |
| OrderBooks.OrderBook.GetMarketPriceBid | include/trader/matching/order_book.inl:110-115 | the larger of the matching bid price and the best bid of the flat lists |
| Ladder.LinkRefines | source/trader/matching/order_book.cpp:127-154 | appending to an existing level is insertion behind all orders at least as good |
| Ladder.LinkNewRefines | source/trader/matching/order_book.cpp:65-95 | so is making the missing level and appending to it |
| Ladder.ChangedRefines | source/trader/matching/order_book.cpp:156-215 | changing or unlinking a node changes one place of the flat list; a level stays in order, with right sums, or is empty exactly when its volume is zero |
| Ladder.NextOrderRefines | source/trader/matching/market_manager.cpp:1254-1255 | the next node of a queue is the next order of the flat list while the price is the same |
| IdIndex.IndexedPut | source/trader/matching/market_manager.cpp:496-545 | reducing or deleting keeps the id map exactly the union of all queues |
| IdIndex.IndexedLink | source/trader/matching/market_manager.cpp:208-225 | linking a node does too |
| BestLevels.AfterBestIsSecond | source/trader/matching/order_book.cpp:97-125 | in a balanced tree the constant-time choice of child or parent is the second best level |
| BestLevels.AfterBestIff | source/trader/matching/order_book.cpp:97-125 | in any search tree the choice is right exactly when the inner child of the best node has no outer child |
| BestLevels.CachedBestIsBest | source/trader/matching/order_book.cpp:65-125 | over every run of additions and deletions the cached best level is the best one |
| Invariants.GoodMatchOrder | source/trader/matching/market_manager.cpp:1207-1298 | matching never crosses a book, and what is left of the order cannot trade with it |
| Invariants.GoodCrossLoop | source/trader/matching/market_manager.cpp:1066-1157 | the nested call on an uncrossed book without 'All-Or-None' orders does nothing; lists stay in order |
| Runs.RunStaysUncrossed | source/trader/matching/market_manager.cpp:135-1057 | over every run of operations and calls of Match with automatic matching, whatever ids other books use, without 'All-Or-None' orders, price-time order holds and best bid is below best ask |
| Runs.RunKeepsLedger | source/trader/matching/market_manager.cpp:135-1057 | over every run without plain modification, additions less deletions reported are the listed orders, and executed plus leaves stays within each quantity |
| WholeOrders.RunKeepsWhole | source/trader/matching/market_manager.cpp:135-1057 | over every run, with matching on or off, no listed 'All-Or-None' order has been filled in part, unless it was added so or reported so from outside |
| WholeOrders.IntactMatchOrder | source/trader/matching/market_manager.cpp:1207-1298 | neither a waiting 'All-Or-None' order nor the incoming one is filled in part |
| WholeOrders.IntactExecuteChain | source/trader/matching/market_manager.cpp:1568-1635 | the same for a chain, even when its remaining volume has wrapped around |
| WholeOrders.IntactMatch | source/trader/matching/market_manager.cpp:1066-1167 | the same for matching crossed books with stop activation |
| Runs.RunIsHonest | source/trader/matching/market_manager.cpp:135-1057 | over every such run without outside executions, bought equals sold and every trade price is accepted by the order's limit |
| Crossing.MatchUncrosses | include/trader/matching/market_manager.h:216-223 | without 'All-Or-None' orders matching ends with best bid below best ask and no stop level triggered |
| Crossing.MatchConserves | source/trader/matching/market_manager.cpp:1066-1157 | without stop orders matching takes the same volume from both sides |
| StopOrders.LeftTriggeredIff | source/trader/matching/market_manager.cpp:1159-1166 | on a book with nothing to activate, an operation ends with a stop triggered exactly when the last trade price lies on the far side of its price and the best level does not |
| StopOrders.NoneLeftTriggered | source/trader/matching/market_manager.cpp:1300-1333 | with any stops to activate on either side, none is left triggered when the stops of one side are kept from it by the best level and no trade price that the others look at is remembered |
| AtRest.SettleRests | source/trader/matching/market_manager.cpp:1300-1333 | the book is then at rest: uncrossed, matching prices reset, no stop triggered |
| AtRest.RestedMeansAll | source/trader/matching/market_manager.cpp:1300-1333 | at rest every buy stop lies above the best ask and every sell stop below the best bid |
| AtRest.DeleteRests | source/trader/matching/market_manager.cpp:815-875 | cancelling any order of a book at rest leaves it at rest, whatever stops that sets off |
| AtRest.ReduceRests | source/trader/matching/market_manager.cpp:452-555 | so does reducing one |
| AtRest.AddRests | source/trader/matching/market_manager.cpp:135-450 | so does adding an order whose id is not in use, which succeeds |
| AtRest.ModifyRests | source/trader/matching/market_manager.cpp:557-678 | so does modifying one, if it does not trade or the orders left in its list keep the stops that look at it from being triggered |
| AtRest.ModifyDecides | source/trader/matching/market_manager.cpp:557-678 | the book in front of the reset is enough: if its best level keeps those stops calm it comes to rest, and if not, and nothing is to be activated, one is left triggered |
| AtRest.ReplaceRests | source/trader/matching/market_manager.cpp:680-802 | a replacement leaves a book at rest under the same condition, if the new id is not in use once the old order is gone |
| AtRest.ExecuteRests | source/trader/matching/market_manager.cpp:877-1057 | so does an execution reported from outside, if the orders left keep the stops calm; if not, a reported price that does not reach the stop price leaves it triggered |
| AtRest.RunRests | source/trader/matching/market_manager.cpp:135-1057 | so no run of such operations ever leaves a stop order triggered |
| AtRest.MatchListed | source/trader/matching/market_manager.cpp:1207-1298 | matching brings in no order ids |
| StopOrders.MatchIsActivation | source/trader/matching/market_manager.cpp:1066-1167 | on an uncrossed book without 'All-Or-None' orders matching is the activation of stop orders and nothing else |
| Chains.StuckWithoutCut | source/trader/matching/market_manager.cpp:1092-1106 | with an 'All-Or-None' order in front, matching gives up, changing nothing, exactly when the calculator finds nothing; a common volume at which both best queues can be cut prevents it, the least such volume is traded, and on a book with one price a side there is no other way |
| Uncrossing.UncrossesIff | include/trader/matching/market_manager.h:216-223 | without stop orders, with one price on either side and one side all 'All-Or-None', matching ends with best bid below best ask exactly when all that the smaller side has can be cut off the front of both sides |
| Uncrossing.StuckOnTheWay | source/trader/matching/market_manager.cpp:1066-1157 | a book on which matching begins and then stays crossed |
| Uncrossing.CrossedMeansStuck | source/trader/matching/market_manager.cpp:1066-1167 | on any book, with any stop orders, matching ends crossed only where an 'All-Or-None' order waits and the calculator finds nothing; with such an order in front the best queues of the final book have no volume in common |
| Chains.BestWalkIff | source/trader/matching/market_manager.cpp:1490-1566 | the calculator ends within the two best levels exactly when their queues can be cut at a common positive volume, and returns the least one |
| Chains.QueueWalkFinds | source/trader/matching/market_manager.cpp:1490-1566 | through all swaps: whatever common volume there is, the walk finds one not larger |
| Chains.ExecuteChainReaches | source/trader/matching/market_manager.cpp:1568-1635 | executing any volume takes that volume if it can be cut off the front, and otherwise empties the side, because the remaining volume wraps around or there is not enough; and what is reported |
| Chains.ExecutesVolumeIff | source/trader/matching/market_manager.cpp:1568-1635 | it takes the volume it was asked for exactly when that can be cut off |
| Chains.ChainReportsFairIff | source/trader/matching/market_manager.cpp:1568-1635 | every order trades within its limit exactly when no more is taken than is at prices the other party accepts |
| Chains.PassIff | source/trader/matching/market_manager.cpp:1092-1106 | exactly when a pass with an 'All-Or-None' order in front removes the calculated volume from both sides, when it reports as much bought as sold, and when it keeps all limits |
| Crossing.QueueWalkCuts | source/trader/matching/market_manager.cpp:1490-1566 | through all swaps both queues have a front of exactly the result, every 'All-Or-None' order whole |
| Crossing.TwoSidedExact | source/trader/matching/market_manager.cpp:1092-1106 | a result found within the two best levels is removed from both sides exactly |
| TimePriority.FromFrontIff | source/trader/matching/market_manager.cpp:1082-1152 | both sides trade from their front exactly when all pairs but the last have equal quantities |
| TimePriority.PassPairs | source/trader/matching/market_manager.cpp:1082-1152 | a pass pairs first with first, second with second, to the end of the shorter queue; each pair trades what the smaller order has at that one's price, and these are all reports and changes |
| Fills.FillIsGreedy | source/trader/matching/market_manager.cpp:1247-1296 | a limit or market order takes from the front the largest volume, of what it asks for and what is acceptable, that splits no 'All-Or-None' order, and changes no other list |
| Fills.FillReports | source/trader/matching/market_manager.cpp:1262-1285 | each trade at the resting order's price, in list order, reported for both sides |
| Fills.PlainFillVolume | source/trader/matching/market_manager.cpp:1247-1296 | without 'All-Or-None' orders that is the smaller of what it asks for and what is acceptable |
| Fills.ChainIff | source/trader/matching/market_manager.cpp:1445-1488 | the calculator returns the volume exactly when it is there at acceptable prices and ends between orders or inside a divisible one |
| Fills.ExecuteChainTakes | source/trader/matching/market_manager.cpp:1568-1635 | executing such a volume takes exactly it: no underflow, 'All-Or-None' orders whole, one order in part at most |
| Fills.WholeOrNothing | source/trader/matching/market_manager.cpp:1219-1245 | a 'Fill-Or-Kill' or 'All-Or-None' order is filled entirely or leaves the book as it was, and when |
| Fills.PlainCuts | source/trader/matching/market_manager.cpp:1445-1488 | without 'All-Or-None' orders every volume can be cut off |
| Trades.HonestMatch | source/trader/matching/market_manager.cpp:1066-1167 | matching buys what it sells and stays within all limits |
| Trades.HonestExecuteChain | source/trader/matching/market_manager.cpp:1568-1635 | a chain trades its volume at the limit of the incoming order, which every order it meets accepts |
| Trades.HonestTradePair | source/trader/matching/market_manager.cpp:1110-1145 | two reports of one quantity at one price, the smaller order's, which lies between both limits |
| Ledger.SoundAddOrder | source/trader/matching/market_manager.cpp:160-450 | matched, resting, dropped or refused as a duplicate: additions less deletions reported stay the number of listed orders |
| Ledger.SoundReplaceOrder | source/trader/matching/market_manager.cpp:685-802 | the same for replacement |
| Ledger.SoundMatch | source/trader/matching/market_manager.cpp:1066-1167 | the same for matching with stop activation |
| Ledger.ModifiedFitsIff | source/trader/matching/market_manager.cpp:607-640 | with matching on or off, a plainly modified order can be filled up to what it had plus the new quantity, which fits exactly when it had not traded |
| Ledger.ModifyKeepsLedgerIff | source/trader/matching/market_manager.cpp:607-640 | with matching off, plain modification keeps every listed order within its quantity exactly when the order had not traded |
| Ledger.MitigatedFits | source/trader/matching/market_manager.cpp:607-665 | mitigation deletes the order unmatched when no more is wanted than it had, and else leaves one, matched or not, that can be filled up to exactly the new quantity |
| StopOrders.MatchIgnores | source/trader/matching/market_manager.cpp:1207-1298 | matching an order neither reads nor writes a stop list |
| StopOrders.ActivatesTheLevel | source/trader/matching/market_manager.cpp:1335-1378 | a triggered level leaves its tree as a whole, its orders activated once each in time order, all other stops untouched |
| Anomalies.AllOrNoneStaysCrossed | include/trader/matching/market_manager.h:216-223 | a book that stays crossed |
| Anomalies.LaterOrderFilledFirst | source/trader/matching/market_manager.cpp:1108-1151 | a later order filled before an earlier one at its price |
| Anomalies.SoldBelowItsLimit | source/trader/matching/market_manager.cpp:1490-1566 | a sell order with limit 20 executed at 9 |
| Anomalies.SoldMoreThanBought | source/trader/matching/market_manager.cpp:1534-1541 | 24 sold against 10 bought after a swap |
| Anomalies.StopLeftTriggered | source/trader/matching/market_manager.cpp:670-677 | a stop left triggered after an operation |
| Anomalies.TradesOfDuplicateStay | source/trader/matching/market_manager.cpp:198-220 | a refused order that has bought out the best bid |
| Duplicates.AddDuplicateIff | source/trader/matching/market_manager.cpp:189-450 | a new order refused as a duplicate leaves the lists as they were exactly when it was not matched or could not be filled |
| Duplicates.ReplaceDuplicateIff | source/trader/matching/market_manager.cpp:734-802 | a refused replacement has deleted the old order, and beyond that the same |
| Duplicates.MatchIdleIff | source/trader/matching/market_manager.cpp:1207-1298 | matching leaves the lists as they are exactly when nothing of the order can be filled |
| TrailingStops.FollowsTheBest | source/trader/matching/order_book.cpp:479-517 | over any market prices, with absolute or percentage distances, the stop price is the best possible one or less than that one's step short of it, and never beyond |
| TrailingStops.BestIsBest | source/trader/matching/order_book.cpp:479-517 | the best one is the first stop price or a candidate, and none of these is ahead of it |
| TrailingStops.FixedDistance | source/trader/matching/order_book.cpp:479-517 | at a fixed distance it is the first stop price or at that distance from some market price, and no further from any |
| TrailingStops.NeverMovesBack | source/trader/matching/order_book.cpp:479-517 | whatever prices follow, the stop price never moves back |
| TrailingStops.MovesIff | source/trader/matching/order_book.cpp:479-517 | the stop price moves exactly when the price at the distance is ahead of it by at least the step, and then to that price |
| TrailingStops.DistanceIs | source/trader/matching/order_book.cpp:479-517 | distance and step are absolute or a share of the market price in hundredths of a percent, rounded down |
| TrailingStops.OffsetKept | source/trader/matching/market_manager.cpp:1691-1701 | limit minus stop price is kept modulo 2^64 |
| TrailingStops.StaysSettledIff | source/trader/matching/market_manager.cpp:1645-1660 | a market that moves away unsettles an order exactly when it is a sell whose percentage step has shrunk to what it is short of its candidate |
| TrailingStops.SkippedTreeIff | source/trader/matching/market_manager.cpp:1645-1660 | a skipped recalculation leaves a tree settled exactly when it has no such order |
| TrailingStops.PercentSellSlips | source/trader/matching/market_manager.cpp:1653-1659 | such an order |
| TrailingStops.MovedForward | source/trader/matching/market_manager.cpp:1684-1712 | a moved order goes in front of its old place and leaves everything behind it in place |
| TrailingStops.TrailingTree.RecalculateTrailingStopPrice | source/trader/matching/market_manager.cpp:1637-1730 | without a best level on the opposite side of the book nothing changes; otherwise the trailing price is stored, and unless the market has moved away every order is settled, the orders being the old ones, each at its new price |
| TrailingStops.TrailingTree.RecalculateLevels | source/trader/matching/market_manager.cpp:1662-1729 | the walk with its jumps back ends with all orders settled |
| TrailingStops.TrailingTree.RecalculateLevel | source/trader/matching/market_manager.cpp:1667-1716 | one level: settled to its end, what lies behind it unmoved, fewer unsettled orders if any moved |
| AggressiveBooks.RefinesThePlainBook | performance/market_manager_optimized_aggressive.cpp:111-200 | at every symbol and signed price the book has the sum of the live quantities, and a level exactly when that is positive |
| AggressiveBooks.LastIsBest | performance/market_manager_optimized_aggressive.cpp:102-103 | the last level of an array is the best price with volume |
| AggressiveBooks.PoolIsDivided | performance/market_manager_optimized_aggressive.cpp:26-60 | every pool index is free or in one book, never both and never in two |
| AggressiveBooks.AddKeeps | performance/market_manager_optimized_aggressive.cpp:163-174 | adding a live order keeps all of that |
| AggressiveBooks.CutKeeps | performance/market_manager_optimized_aggressive.cpp:176-200 | so does taking quantity away, down to deleting the level |
| AggressiveBooks.LevelPool.Allocate | performance/market_manager_optimized_aggressive.cpp:36-50 | the last freed index, or a new one |
| AggressiveBooks.OrderBook.FindLevel | performance/market_manager_optimized_aggressive.cpp:111-137 | the backward scan finds the level or inserts it at its rank |
| AggressiveBooks.OrderBook.DeleteLevel | performance/market_manager_optimized_aggressive.cpp:139-161 | the scan erases the level of that price and frees its index |
| AggressiveBooks.OrderBook.AddOrder | performance/market_manager_optimized_aggressive.cpp:163-174 | the level's volume grows, 32-bit, and its index is returned |
| AggressiveBooks.OrderBook.ReduceOrder | performance/market_manager_optimized_aggressive.cpp:176-187 | the volume shrinks and an empty level goes |
| AggressiveBooks.MarketManagerOptimized.AddOrder | performance/market_manager_optimized_aggressive.cpp:228-237 | the live orders gain one, everything stays valid |
| AggressiveBooks.MarketManagerOptimized.ReduceOrder | performance/market_manager_optimized_aggressive.cpp:239-249 | the order lives on with the rest, or no longer; executions (lines 334-356) have the same body |
| AggressiveBooks.MarketManagerOptimized.ModifyOrder | performance/market_manager_optimized_aggressive.cpp:251-273 | the order gets the new quantity at the new price, on its side |
| AggressiveBooks.MarketManagerOptimized.ReplaceOrder | performance/market_manager_optimized_aggressive.cpp:275-323 | the old order goes and the new one lives at the new price, on the old one's side |
| AggressiveBooks.MarketManagerOptimized.DeleteOrder | performance/market_manager_optimized_aggressive.cpp:325-332 | the order no longer lives |
| AggressiveBooks.MarketManagerOptimized.Best | performance/market_manager_optimized_aggressive.cpp:102-103 | the best price with its volume, or none when the side is empty |
| ItchStream.PayloadsOfMore | source/trader/providers/nasdaq/itch_handler.cpp:16-93 | what a longer stream holds is what its beginning holds, and then what the left-over bytes and the rest hold |
| ItchStream.EncodedIsRead | source/trader/providers/nasdaq/itch_handler.cpp:16-93 | the non-empty messages of a sender are read back in order |
| ItchStream.ExampleStream | source/trader/providers/nasdaq/itch_handler.cpp:16-93 | two messages and the beginning of a third, byte by byte |
| ItchStream.ITCHHandler.Process | source/trader/providers/nasdaq/itch_handler.cpp:16-93 | delivers exactly the undelivered payloads of the stream so far, up to the first one refused, and keeps exactly the unconsumed bytes |
| ItchStream.ITCHHandler.ReadSize | source/trader/providers/nasdaq/itch_handler.cpp:23-53 | a size is read from data or cache, or one byte is cached; the same messages follow |
| ItchStream.ITCHHandler.ReadMessage | source/trader/providers/nasdaq/itch_handler.cpp:55-92 | a complete payload is delivered from data or cache, an incomplete one cached |
| ItchStream.ITCHHandler.Reset | source/trader/providers/nasdaq/itch_handler.cpp:159-163 | a new stream |
| ItchStream.SameBytesSameState | source/trader/providers/nasdaq/itch_handler.cpp:16-93 | deliveries, size and cache depend on the bytes alone, not on how they were cut |
| KdbText.DecodeEncodeIff | kdb/c/c.js:15-39 | decoding inverts encoding exactly on text without surrogates |
| KdbText.DecodesToKept | kdb/c/c.js:15-39 | in general it drops each surrogate with what follows it |
| KdbText.IsUtf8 | kdb/c/c.js:15-28 | the bytes are those of section 3 of RFC 3629, two to four bytes with six bits in each but the first |
| KdbText.U8U16 | kdb/c/c.js:15-28 | the loop writes the encoding |
| KdbText.U16U8 | kdb/c/c.js:30-39 | the loop reads the decoding of any bytes |
| KdbIpc.RoundTripIff | kdb/c/c.js:84-192 | a value is read back exactly when its text has no surrogates and no leading backtick and its keys no surrogates and no NUL |
| KdbIpc.HeaderOf | kdb/c/c.js:188-192 | four fixed bytes and the size of the whole message, least significant byte first, in front of the value |
| KdbIpc.Int32Value | kdb/c/c.js:174-192 | a count is four bytes, least significant first |
| KdbIpc.ExampleBytes | kdb/c/c.js:176-187 | texts, symbols, nulls, booleans and lists, byte by byte |
| KdbIpc.ExampleObject | kdb/c/c.js:176-187 | an object with a number, byte by byte |
| KdbIpc.ValueIsRead | kdb/c/c.js:108-146 | the same for a value anywhere in a message, whatever follows it |
| KdbIpc.SymbolIsRead | kdb/c/c.js:98 | a zero-terminated symbol is read back when plain and otherwise shorter |
| KdbSerializer.CalcN | kdb/c/c.js:161-173 | the size computed in advance is the number of bytes of the value |
| KdbSerializer.Serializer.W | kdb/c/c.js:176-187 | writes exactly the bytes of the value at the position and nothing else |
| KdbSerializer.Serialize | kdb/c/c.js:188-192 | the buffer is filled exactly, and the size it announces is its length |
| KdbDeserializer.Deserializer.R | kdb/c/c.js:108-146 | the recursive reader with a shared position computes the parse and stops behind the value |
| KdbDeserializer.Deserializer.RSymbol | kdb/c/c.js:98 | reads up to the zero byte and decodes |
| KdbDeserializer.DeserializeMessage | kdb/c/c.js:84-150 | reads a message behind its header |

## Left out

Weaker than the source:

- MarketManagers.MarketManager.AddOrder: with automatic matching it excludes 'All-Or-None' orders, which leave a book crossed so that nested matching is re-entered between two halves of a trade.
- MarketManagers.MarketManager.EnableMatching: for the same reason it excludes crossed books and books with 'All-Or-None' orders.
- MarketManagers.MarketManager.ReplaceOrder: the variant that takes a whole order is a deletion followed by an addition and has no method of its own.
- MarketManagers.MarketManager.ActivateStopOrders: the two trailing trees and their recalculation between activations are not part of the loop.
- Operations.AddMarketDoes: slippages above ORDER_INT_MAX, which stands for none, are not covered, here and in `Operations.AddStopDoes`, `Offers.MarketTakes` and `Offers.StopTrades`.
- Operations.ModifyDoes: with matching on the books of these lemmas are uncrossed and without 'All-Or-None' orders, as in the methods.
- TimePriority.PassPairs: without 'All-Or-None' orders; with one in front a pass is `Chains.PassIff`.
- Runs.RunStaysUncrossed: about one book at a time and without trailing orders; existing orders are named by tree and position.
- Runs.RunKeepsLedger: the bound on fills is about listed orders; about an incoming order it is `Ledger.SoundMatchOrder`.
- Runs.RunIsHonest: about one book at a time, without executions reported from outside.
- Crossing.TwoSidedExact: one direction; the exact conditions are in `Chains.PassIff`.
- Chains.StuckWithoutCut: with further price levels a book without a common cut of its best queues need not be stuck, because the calculator goes on to levels that do not cross; `Crossing.StuckIff` is about one book in front of matching, not about a whole run of it.
- Uncrossing.UncrossesIff: without an exact condition are books with further price levels, with stop orders, or with 'All-Or-None' and divisible orders on both sides, where pairing by position decides; for them there is `Uncrossing.CrossedMeansStuck`, one direction.
- Chains.ExecuteChainReaches: the volume of a side is at most 2^64.
- StopOrders.LeftTriggeredIff: about the book in front of the reset, with nothing to activate; conditions on the book in front of a public call are in `AtRest`.
- StopOrders.NoneLeftTriggered: one direction; when neither side's stops are calm, the last price of an activation decides.
- AtRest.ModifyDecides: leaves open a modification that sets off stops while the others are not calm; so does `AtRest.ExecuteRests`.
- AtRest.AddRests: excludes buy stop prices above ORDER_INT_MAX, which is the market price of a side without asks; and ids in use, for which the refusal skips settling (`Duplicates.AddDuplicateIff`).
- TrailingStops.TrailingTree.RecalculateTrailingStopPrice: the tree is the flat list of its orders; levels are found by price, so level nodes and their cached volumes are not modelled here.
- TrailingStops.StaysSettledIff: excludes distances that 64-bit arithmetic does not compute, absolute ones beyond the largest price and percentages whose product with the price wraps around.
- AggressiveBooks.MarketManagerOptimized.AddOrder: requires a positive quantity, a sum below 2^32 and an id that no live order has; outside of these the source deletes levels that orders still refer to, or forgets an order.
- ItchStream.ITCHHandler.Process: acceptance is a function of the payload; after a refusal the state is described only until the next reset.
- KdbIpc.RoundTripIff: messages below 2^31 - 1 bytes; type codes that serialize never writes, and messages cut short, parse to None.
- KdbDeserializer.DeserializeMessage: compressed messages are not read.

Not modelled:

- Activation of trailing stops inside the market manager, which goes through the wrong tree in the source; the manager's orders do not trail.
- DeleteOrderBook; names of symbols and reports about symbols and books; onUpdateOrder, level updates and their Top flag.
- Overflow of 64-bit volume sums and quantities (levels and orders hold natural numbers); debug assertions.
- Memory: nodes are named by order id, levels by price, trees are in-order lists; intrusive lists, pools and hash maps of CppCommon and the rebalancing of its tree are not part of this model. Internal calls look an order up without repeating the validation of its id.
- The handler log is kept per book, so the interleaving of reports about different books in `Match()` is not modelled.
- The two-sided optimized book (performance/market_manager_optimized.cpp): the same pool and arrays with order counts, which the aggressive book covers.
- AddOrderBook of the aggressive manager, which drops a book's levels without freeing them; negation of the smallest 32-bit price.
- The ITCH message decoders, a fixed sequence of field reads after a size check.
- In kdb+: dates, atoms and vectors that serialize does not write, tables, rounding of numbers (eight bytes are passed through), `__proto__` as a key and inherited properties, big-endian machines.
- Feed handlers, kdb+/Redis/ODBC/JDBC clients, benchmarks and examples.
