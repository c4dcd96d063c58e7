# ScopeX matching engine, SPSC ring and replay tool in Dafny

This project models three pieces of ScopeX:

- **The single-threaded limit order book and matching engine** (`engine.cpp`, with the value types of `engine.hpp`).
  - Each side of the book is a sequence of price levels, best first. Each level is a FIFO queue of resting orders.
  - An index maps order ids to (side, price).
  - `EngineSingleThreaded` assigns ids starting at 1000 and stamps each order with a sequence timestamp. It applies the GTC/IOC/FOK and MARKET rules and classifies each result.
- **The SPSC ring buffer** (`spsc_ring.hpp`), modelled as a sequential bounded FIFO.
  - The buffer has a power-of-two size. `head` and `tail` only grow and are mapped to slots with `index & mask`.
  - The producer keeps a copy of `head` and the consumer a copy of `tail`; both are modelled.
- **The replay command-line tool** (`source/cli/main.cpp`):
  - the helpers `ieq`, `trim` and `split_csv_line`;
  - the option parser;
  - the decoding of ADD and CANCEL records;
  - the replay loop with its four counters.

Each module pairs a value-level specification with imperative code:

- `BookSpec`, `Engine` (its functions), `CliText` and `Cli` (its functions) define the behaviour as functions on values.
- `BookImpl.OrderBook`, `Engine.EngineSingleThreaded`, `Spsc.SpscRing` and the methods of `Cli` are classes and loops shaped like the source.
  - Their `ensures` clauses tie every new state and result to those functions.
  - The lemmas prove the engine's promises about the functions: price-time priority, conservation, statuses, book shape, FIFO order, round trips of the text helpers, and the replay counters.

Modules:

| file | module | models |
|---|---|---|
| `EngineTypes.dfy` | `EngineTypes` | enums, order command, order, trade, snapshot, add result, engine configuration |
| `BookSpec.dfy` | `BookSpec` | the book as values: matching, resting, cancelling, snapshots, and their lemmas |
| `BookImpl.dfy` | `BookImpl` | class `OrderBook` with the source's loops |
| `Engine.dfy` | `Engine` | `AddOrderSpec` and class `EngineSingleThreaded` |
| `Spsc.dfy` | `Spsc` | class `SpscRing`, the mask arithmetic and the slot window |
| `CliText.dfy` | `CliText` | `ieq`, `trim`, `split_csv_line`, and the `std::stoi` family |
| `Cli.dfy` | `Cli` | `parse_args`, ADD/CANCEL decoding, and the replay loop |

Behaviour the model keeps as the code has it:

- **Id counter.**
  - `addOrder` evaluates `cmd.orderId.value_or(next_++)`. The argument is evaluated even when an id is supplied, so `next_` advances on every accepted order (`source/libs/engine/engine.cpp:282`).
  - The comment on the line above says the counter advances only when no id is given. The model follows the code: `Engine.AddOrderIds`.
- **Stale index entries.** An order that is fully filled leaves its queue but keeps its index entry. Cancelling it later erases the entry and reports false: `BookSpec.CancelIndexed`.
- **Level limits.**
  - `available_market` stops after the first level when `max_levels <= 0`: `BookSpec.MarketCheckFirstLevelOnly`.
  - `add_market` treats 0 as "no limit", and a level that was matched but not emptied still counts as visited: `BookSpec.MatchMarket`.
- **`market_max_levels` conversion.** This is an unsigned 64-bit field that the engine passes as an `int`. `Engine.ToInt32` models that conversion as a 32-bit wrap-around.
- **`try_pop_n` reads the consumer's cached tail.** It refreshes the cache only when the cache equals `head`, so it can return fewer than `min(max_n, size)` elements.
  - `Spsc.SpscRing.TryPopN` states exactly how many it returns.
  - `Spsc.TryPopNBehindCache` exhibits the shortfall: with two elements queued, it returns only one.
  - It also proves the count never exceeds the size, equals `min(max_n, size)` when the cache was refreshed, and is not 0 while elements are queued and `max_n > 0`.
- **`approx_size` when full.** It returns `(tail + capacity - head) & mask`, which is 0 when the ring is full.
- **Blank cells from `getline`.** `split_csv_line` reads cells with `std::getline`:
  - a trailing comma does not produce an empty last cell;
  - an empty line has no cells.
- **Record timestamps.** The engine never reads the timestamp cell of a record. The order command's timestamp stays 0, as in the tool.

## Model

| member | source | states |
|---|---|---|
| EngineTypes.DefaultsOfHeader | include/libs/engine/engine.hpp:39-47 | a default order command is BUY, LIMIT, GTC, without id, with price, qty and timestamp 0; the default configuration treats MARKET+GTC as IOC and has no level limit |
| EngineTypes.SumTradesAppend | source/libs/engine/engine.cpp:305 | the filled quantity of a concatenation of trade lists is the sum of the parts |
| BookSpec.MatchLevel | source/libs/engine/engine.cpp:50-62 | matching one FIFO level conserves quantity: remaining + traded = taker quantity, and rest + traded = the level's former quantity; the rest holds only live orders; a positive taker either ends filled or empties the level; a non-positive taker changes nothing |
| BookSpec.MatchLevelFifo | source/libs/engine/engine.cpp:52-60 | the makers are consumed front to back; each trade is min(taker remaining, maker quantity) against the next maker in queue order |
| BookSpec.MatchLevelRest | source/libs/engine/engine.cpp:52-60 | after k trades the level keeps exactly the makers from k on; the last maker stays, reduced, only if it was not used up |
| BookSpec.MatchLevelTrades | source/libs/engine/engine.cpp:55 | every trade of a level has the taker's id and timestamp, a positive quantity, and the level's price |
| BookSpec.TakerTradesSum | source/libs/engine/engine.cpp:305-309 | trades with positive quantities sum to a non-negative total, which is positive exactly when there is a trade |
| BookSpec.SweepNShape | source/libs/engine/engine.cpp:116-123 | a sweep leaves a live side that is the swept one with its front levels removed and its first remaining level possibly reduced |
| BookSpec.SweepNConserves | source/libs/engine/engine.cpp:116-123 | a sweep conserves quantity for the taker and for the swept side |
| BookSpec.SweepRemaining | source/libs/engine/engine.cpp:116-123 | what the taker has left after sweeping n levels is its quantity less the quantity of those levels, or 0 |
| BookSpec.SweepTrades | source/libs/engine/engine.cpp:116-123 | the sweep's trades are the taker's, and each is priced at one of the levels it was allowed to visit |
| BookSpec.SweepPriceOrder | source/libs/engine/engine.cpp:116-123 | trades come best price first on an ordered side (price priority) |
| BookSpec.SweepLeavesNothingBetter | source/libs/engine/engine.cpp:116-123 | no level left after a sweep has a better price than any trade made |
| BookSpec.SweepExhausted | source/libs/engine/engine.cpp:164-170 | a taker that still has quantity after the sweep has removed every level it visited |
| BookSpec.CrossingCountExact | source/libs/engine/engine.cpp:116 | on an ordered side, the levels a limit order may reach are exactly the ones whose price crosses its limit (asks <= limit for BUY, bids >= limit for SELL) |
| BookSpec.LimitFill | source/libs/engine/engine.cpp:67-86 | a limit order fills all but what the crossing liquidity (available_to_buy_up_to / available_to_sell_down_to) lacks |
| BookSpec.MarketFill | source/libs/engine/engine.cpp:88-104 | when the available_market quantity covers the order, the market sweep fills it completely |
| BookSpec.MarketCheckFirstLevelOnly | source/libs/engine/engine.cpp:95 | with max_levels <= 0 the capacity check counts only the first level, while the sweep may visit every level |
| BookSpec.RestSpec | source/libs/engine/engine.cpp:125-129 | resting an order appends it at the back of its price level (created in price order if absent), adds its quantity, and leaves every other level's queue unchanged |
| BookSpec.AddLimitKeepsBookValid | source/libs/engine/engine.cpp:107-152 | add_limit keeps both sides ordered, free of empty levels and live, and the book uncrossed |
| BookSpec.AddMarketKeepsBookValid | source/libs/engine/engine.cpp:155-187 | add_market keeps the book ordered, live and uncrossed |
| BookSpec.AddLimitTrades | source/libs/engine/engine.cpp:114-141 | every trade of a limit order is the taker's, crosses its limit, and the trades come in price priority |
| BookSpec.AddLimitConserves | source/libs/engine/engine.cpp:107-152 | the opposite side loses exactly the traded quantity; a GTC remainder rests at the back of its level and is indexed; otherwise the own side and the index are unchanged |
| BookSpec.AddLimitMatched | source/libs/engine/engine.cpp:114-131 | add_limit is the crossing sweep of the opposite side followed by resting a GTC remainder |
| BookSpec.MatchLimitConserves | source/libs/engine/engine.cpp:116-123 | the crossing sweep fills between 0 and the order quantity and removes exactly that from the side |
| BookSpec.AddMarketTrades | source/libs/engine/engine.cpp:162-185 | the trades of a market order are the taker's and come in price priority |
| BookSpec.AddMarketOutcome | source/libs/engine/engine.cpp:155-187 | a market order fills up to the quantity of the levels it may reach; an unfilled remainder means those levels are gone; nothing rests and the index is unchanged; empty_book holds exactly when the opposite side ends empty |
| BookSpec.FindLevel | source/libs/engine/engine.cpp:200 | the position of the level at a price, or none when no level has that price |
| BookSpec.FindOrder | source/libs/engine/engine.cpp:203 | the first position of an id in a queue, or none when the id is absent |
| BookSpec.CancelUnknown | source/libs/engine/engine.cpp:191-194 | cancelling an id that is not indexed returns false and changes nothing |
| BookSpec.CancelIndexed | source/libs/engine/engine.cpp:195-226 | cancelling an indexed id erases its index entry and leaves the other side unchanged; on success exactly that order leaves its queue, the queue at every other price of its side is unchanged, and the side loses its quantity; on failure the side is unchanged |
| BookSpec.CancelFromSideQueue | source/libs/engine/engine.cpp:205-208 | removing order j of level i leaves that price's queue without it, leaves the queue at every other price as it was, and subtracts its quantity from the side |
| BookSpec.QueueAtUpdateOther | source/libs/engine/engine.cpp:205-206 | replacing the queue of one level does not change the queue found at any other price |
| BookSpec.QueueAtRemoveOther | source/libs/engine/engine.cpp:207-208 | erasing a level does not change the queue found at any other price |
| BookSpec.CancelKeepsBookValid | source/libs/engine/engine.cpp:189-227 | a cancel keeps the book ordered, free of empty levels and uncrossed |
| BookSpec.SnapshotSideSpec | source/libs/engine/engine.cpp:238-250 | a snapshot side has min(levels, max(0, depth)) entries, each the price of a level in book order and the summed quantity of its queue |
| BookSpec.SnapshotOrdered | include/libs/engine/engine.hpp:86-89 | snapshot bids are strictly descending, asks strictly ascending, every quantity is positive, and best bid < best ask |
| BookImpl.OrderBook.constructor | source/libs/engine/engine.cpp:36-38 | a new book is empty and valid |
| BookImpl.OrderBook.LevelQty | source/libs/engine/engine.cpp:40-47 | level_qty returns the summed quantity of the queue |
| BookImpl.OrderBook.MatchLevel | source/libs/engine/engine.cpp:50-62 | the match_level loop computes BookSpec.MatchLevel |
| BookImpl.OrderBook.AvailableToBuyUpTo | source/libs/engine/engine.cpp:67-76 | the quantity of the asks at or below the price |
| BookImpl.OrderBook.AvailableToSellDownTo | source/libs/engine/engine.cpp:78-86 | the quantity of the bids at or above the price |
| BookImpl.OrderBook.AvailableMarket | source/libs/engine/engine.cpp:88-104 | the quantity of the first max(1, max_levels) levels of the opposite side |
| BookImpl.OrderBook.SweepCrossing | source/libs/engine/engine.cpp:116-123 | the iterator loop of add_limit computes the crossing sweep MatchLimit |
| BookImpl.OrderBook.SweepMarket | source/libs/engine/engine.cpp:164-170 | the level-counting loop of add_market computes MatchMarket |
| BookImpl.OrderBook.AddLimit | source/libs/engine/engine.cpp:107-152 | the new book and the trades are those of BookSpec.AddLimit, and the book stays valid |
| BookImpl.OrderBook.AddMarket | source/libs/engine/engine.cpp:155-187 | the new book, trades and empty_book flag are those of BookSpec.AddMarket |
| BookImpl.OrderBook.Cancel | source/libs/engine/engine.cpp:189-227 | the new book and the result are those of BookSpec.Cancel |
| BookImpl.OrderBook.Snapshot | source/libs/engine/engine.cpp:229-253 | the snapshot is BookSpec.SnapshotOf the book |
| Engine.Classify | source/libs/engine/engine.cpp:308-309 | an accepted order is OK iff nothing filled, FILLED iff something filled and nothing remains, PARTIAL iff something filled and something remains |
| Engine.ToInt32 | source/libs/engine/engine.cpp:313 | the uint64 market_max_levels as an int: in 32-bit range, congruent modulo 2^32, unchanged when small |
| Engine.AddOrderBadInput | source/libs/engine/engine.cpp:276-279 | a quantity <= 0 gives BAD_INPUT with id 0 and no trades; the book, next_ and seq_ are unchanged |
| Engine.AddOrderIds | source/libs/engine/engine.cpp:282-284 | an accepted order gets its own id if it has one, otherwise next_; next_ and seq_ each advance by one |
| Engine.AddOrderFills | source/libs/engine/engine.cpp:304-306 | the trades are the order's with the new timestamp; filled = sum of trade quantities; filled + remaining = quantity; 0 <= filled <= quantity |
| Engine.LimitFills | source/libs/engine/engine.cpp:290-309 | the same for the limit branch |
| Engine.MarketFills | source/libs/engine/engine.cpp:310-339 | the same for the market branch |
| Engine.AddOrderStatus | source/libs/engine/engine.cpp:308-309 | FILLED iff fully filled, PARTIAL iff partly filled, OK/EMPTY_BOOK/FOK_FAIL/REJECT iff nothing filled, never BAD_INPUT for a positive quantity; EMPTY_BOOK only for a market order that left the opposite side empty; a market order that is neither killed nor rejected ends EMPTY_BOOK exactly when the opposite side was empty; OK only for a limit order |
| Engine.AddOrderMarketStatus | source/libs/engine/engine.cpp:324-337 | the market-order half of those statements: EMPTY_BOOK iff the opposite side was empty (unless FOK_FAIL or REJECT), never OK |
| Engine.MarketEmptyBook | source/libs/engine/engine.cpp:324-337 | add_market on a non-empty opposite side trades something, so a market order ends EMPTY_BOOK exactly when that side is empty and never ends OK |
| Engine.AddOrderKilledUnchanged | source/libs/engine/engine.cpp:298-321 | FOK_FAIL and REJECT leave the book unchanged, with no trades and the whole quantity remaining |
| Engine.AddOrderNoRest | source/libs/engine/engine.cpp:124-131 | IOC, FOK and market orders never rest: the own side and the index are unchanged |
| Engine.AddOrderFillOrKill | source/libs/engine/engine.cpp:293-317 | a FOK order either fails with nothing filled or is filled completely |
| Engine.AddOrderMarketGtc | source/libs/engine/engine.cpp:319-322 | MARKET+GTC is rejected when market_gtc_as_ioc is false |
| Engine.AddOrderKeepsBookValid | source/libs/engine/engine.cpp:274-342 | addOrder keeps the book ordered, live and uncrossed |
| Engine.EngineSingleThreaded.constructor | source/libs/engine/engine.cpp:261-271 | a new engine has an empty book, next_ = 1000 and seq_ = 0 |
| Engine.EngineSingleThreaded.FilledQty | source/libs/engine/engine.cpp:305 | the loop sums the trade quantities |
| Engine.EngineSingleThreaded.AddOrder | source/libs/engine/engine.cpp:274-342 | the new engine state and the result are AddOrderSpec of the old state |
| Engine.EngineSingleThreaded.AddLimitOrder | source/libs/engine/engine.cpp:290-309 | the limit branch computes LimitOutcome |
| Engine.EngineSingleThreaded.AvailableForLimit | source/libs/engine/engine.cpp:295-297 | the FOK probe is the opposite quantity at or through the limit |
| Engine.EngineSingleThreaded.AddMarketOrder | source/libs/engine/engine.cpp:310-339 | the market branch computes MarketOutcome |
| Engine.EngineSingleThreaded.CancelOrder | source/libs/engine/engine.cpp:263 | cancelOrder is the book's cancel; ids and sequence are unchanged |
| Engine.EngineSingleThreaded.Snapshot | source/libs/engine/engine.cpp:264 | snapshot with default depth 5 is the book's snapshot |
| Spsc.ModIsRemainder | include/libs/concurrency/spsc_ring.hpp:167 | the slot function is the remainder modulo the capacity |
| Spsc.AndMaskPow2 | include/libs/concurrency/spsc_ring.hpp:167 | index & (capacity - 1) is index mod capacity for a power-of-two capacity |
| Spsc.PowerOfTwoTest | include/libs/concurrency/spsc_ring.hpp:21 | c != 0 && (c & (c - 1)) == 0 holds exactly for powers of two |
| Spsc.ModDistinct | include/libs/concurrency/spsc_ring.hpp:167 | fewer than capacity consecutive indices map to distinct slots, so queued elements never share a slot |
| Spsc.WindowPush | include/libs/concurrency/spsc_ring.hpp:125-126 | writing the slot of tail and advancing tail appends the value to the queue |
| Spsc.WindowPop | include/libs/concurrency/spsc_ring.hpp:69-73 | the slot of head holds the oldest element, and advancing head drops it |
| Spsc.WindowDrop | include/libs/concurrency/spsc_ring.hpp:83-91 | advancing head by k drops the k oldest elements |
| Spsc.SpscRing.constructor | include/libs/concurrency/spsc_ring.hpp:16-22 | a ring of a nonzero power-of-two capacity starts empty, with mask = capacity - 1 and both indices and both caches at 0 |
| Spsc.SpscRing.Slot | include/libs/concurrency/spsc_ring.hpp:167 | addr(i) is slot i mod capacity, inside the buffer |
| Spsc.SpscRing.HeadCacheForProducer | include/libs/concurrency/spsc_ring.hpp:131-145 | the cached head is refreshed when the ring looks full, so tail - head == capacity exactly when the ring really is full |
| Spsc.SpscRing.TailCacheForConsumer | include/libs/concurrency/spsc_ring.hpp:147-160 | the cached tail is refreshed when it equals head, so the returned tail equals head exactly when the ring really is empty |
| Spsc.SpscRing.Push | include/libs/concurrency/spsc_ring.hpp:117-128 | push succeeds exactly when fewer than capacity elements are queued, and then appends the value; otherwise nothing changes; the producer's head cache is re-read from head exactly when the ring looks full through it, and the consumer's cache is untouched |
| Spsc.SpscRing.Pop | include/libs/concurrency/spsc_ring.hpp:59-75 | pop succeeds exactly when the ring is not empty, and then returns and removes the oldest element; otherwise out and the queue are unchanged; the consumer's tail cache is re-read from tail exactly when it equals head, and the producer's cache is untouched |
| Spsc.SpscRing.TryPopN | include/libs/concurrency/spsc_ring.hpp:77-93 | moves min(max_n, cached tail - head) oldest elements, in order, to out[0..n); never more than the size; min(max_n, size) when the cache was refreshed; at least one when elements exist and max_n > 0; the tail cache is refreshed by the same rule as pop's, and the producer's cache is untouched |
| Spsc.TryPopNBehindCache | include/libs/concurrency/spsc_ring.hpp:77-93 | after push 1, push 2, pop (which refreshes the consumer's cached tail to 2), then push 3 on a ring of 4, two elements are queued but try_pop_n(out, 2) returns 1 |
| Spsc.SpscRing.CopyOut | include/libs/concurrency/spsc_ring.hpp:83-89 | the copy loop writes the oldest min(max_n, t - head) elements to out in order and leaves the rest of out alone |
| Spsc.SpscRing.Advance | include/libs/concurrency/spsc_ring.hpp:91 | storing head + k drops the k oldest elements |
| Spsc.SpscRing.ApproxSize | include/libs/concurrency/spsc_ring.hpp:95-100 | (tail + capacity - head) & mask is the size modulo capacity: the size below capacity, 0 when full |
| CliText.Ieq | source/cli/main.cpp:54-63 | ieq holds iff the lengths agree and every position agrees after tolower |
| CliText.AgreeFrom | source/cli/main.cpp:57-61 | the comparison loop from position i succeeds iff all later positions agree after tolower |
| CliText.IeqIsLowerEq | source/cli/main.cpp:54-63 | ieq is equality of the lower-cased strings |
| CliText.IeqEquivalence | source/cli/main.cpp:54-63 | ieq is reflexive, symmetric and transitive |
| CliText.Trim | source/cli/main.cpp:66-72 | the trimmed text is no longer than the text and neither starts nor ends with whitespace |
| CliText.TrimFront | source/cli/main.cpp:69 | the first loop leaves a suffix with only whitespace cut off, which does not start with whitespace |
| CliText.TrimBack | source/cli/main.cpp:70 | the second loop leaves a prefix with only whitespace cut off, which does not end with whitespace |
| CliText.TrimSplits | source/cli/main.cpp:66-72 | a text is its trimmed form between two runs of whitespace |
| CliText.TrimExact | source/cli/main.cpp:66-72 | trim removes exactly the surrounding whitespace and nothing else |
| CliText.TrimIdempotent | source/cli/main.cpp:66-72 | trim is idempotent |
| CliText.TrimWithin | source/cli/main.cpp:66-72 | every character of the trimmed text occurs in the text |
| CliText.CommaIndex | source/cli/main.cpp:80 | getline stops at the first comma, or at the end when there is none |
| CliText.Fields | source/cli/main.cpp:78-83 | the getline cells contain no comma |
| CliText.FieldsJoin | source/cli/main.cpp:78-83 | splitting comma-joined comma-free cells, the last one non-empty, returns those cells |
| CliText.JoinFields | source/cli/main.cpp:78-83 | rejoining the cells gives back the text, apart from a trailing comma that getline drops |
| CliText.SplitCsvLine | source/cli/main.cpp:74-85 | one cell per getline cell; no cell contains a comma or starts or ends with whitespace |
| CliText.SplitJoin | source/cli/main.cpp:74-85 | split_csv_line of comma-joined trimmed comma-free cells, the last one non-empty, gives those cells back |
| CliText.Stoi | source/cli/main.cpp:99 | std::stoi yields a 32-bit value or fails |
| CliText.Stoll | source/cli/main.cpp:213-214 | std::stoll yields a 64-bit value or fails |
| CliText.Stoull | source/cli/main.cpp:219 | std::stoull yields a value below 2^64 or fails |
| CliText.DecimalValue | source/cli/main.cpp:213-219 | the decimal digits of n are read back as n |
| CliText.LeadingIntegerOfDecimal | source/cli/main.cpp:213-219 | the leading-integer reader reads back any signed decimal text |
| CliText.StollOfDecimal | source/cli/main.cpp:213-214 | stoll reads back any 64-bit integer written in decimal |
| CliText.StoullOfDecimal | source/cli/main.cpp:219 | stoull reads back any unsigned 64-bit integer written in decimal |
| CliText.StoiOfDecimal | source/cli/main.cpp:99 | stoi reads back any 32-bit integer written in decimal |
| Cli.ArgStepAt | source/cli/main.cpp:92-121 | one argument advances by one or two positions; --replay and --out with a value set their field to it, --print-trades sets print_trades, --no-metrics clears print_metrics, --no-human sets no_human, --depth sets depth to its stoi value or ends with the depth error; each option changes only its own field; the step stops exactly for help (usage) or a depth that does not convert |
| Cli.ParseArgs | source/cli/main.cpp:87-131 | the parse_args loop computes ParseArgsSpec |
| Cli.ParseArgsHelp | source/cli/main.cpp:117-121 | -h or --help at any position the loop reaches gives no options (usage) |
| Cli.ParseArgsBadDepth | source/cli/main.cpp:97-100 | --depth with a value stoi rejects, at any position the loop reaches, ends the program instead of parsing |
| Cli.ParseArgsOutcome | source/cli/main.cpp:87-131 | usage iff a help option is reached; the depth error iff a bad --depth is reached; otherwise the options are parsed iff the last --replay value reached is non-empty, and then the replay file is that value, else the replay file is missing |
| Cli.ParseArgsFromOutcome | source/cli/main.cpp:90-131 | the same from any position and any options reached so far |
| Cli.ParseArgsReplayFile | source/cli/main.cpp:124-130 | parsed options always have a non-empty replay file that follows some --replay argument |
| Cli.ParseArgsKeeps | source/cli/main.cpp:90-122 | an option not named among the remaining arguments keeps its value |
| Cli.ParseArgsDefaults | source/cli/main.cpp:37-44 | unless named: depth 5, print_trades false, print_metrics true, no_human false, no out file |
| Cli.DecodeAdd | source/cli/main.cpp:206-220 | an ADD record fails to decode exactly when a non-empty price, the quantity, or a non-empty eighth-cell id does not convert; otherwise the price is the stoll value or 0 when empty, the quantity its stoll value, and a set id is the stoull value of the eighth cell |
| Cli.DecodeAddFields | source/cli/main.cpp:201-220 | side BUY iff "BUY" in any case, LIMIT iff "LIMIT", IOC iff "IOC", FOK iff "FOK" and not "IOC", empty price is 0, order id set iff an eighth non-empty cell, timestamp 0 |
| Cli.NamesDecode | source/cli/main.cpp:209-211 | the side, type and time-in-force names decode back to their values |
| Cli.DecodeAddRecord | source/cli/main.cpp:201-220 | the record written for a command with 64-bit fields decodes back to that command |
| Cli.AddLineCells | source/cli/main.cpp:165-167 | the line of such a record is already trimmed and splits into exactly its cells |
| Cli.AddLineReads | source/cli/main.cpp:165-220 | that line is not skipped, splits into its record, is recognised as ADD, and decodes to the command |
| Cli.AddCommandOutcome | source/cli/main.cpp:223-241 | an ADD goes on with a valid book after the header |
| Cli.AddRecordOutcome | source/cli/main.cpp:201-223 | an ADD record goes on with a valid book, and terminates exactly when a number does not convert |
| Cli.CancelRecordOutcome | source/cli/main.cpp:243-261 | a CANCEL record goes on with a valid book and terminates exactly when its last cell is non-empty and does not convert; an empty last cell changes nothing; otherwise the book is the cancel's result and orders_cancel grows by one exactly when the cancel succeeded |
| Cli.RecordOutcome | source/cli/main.cpp:170-266 | after a record the book stays valid and the header is no longer expected; a stop is never a finished replay, and it is the header error exactly when the header was expected; while the header is expected the record goes on, unchanged, exactly when its first cell is "timestamp" in any case; a record with too few cells or an unknown command changes nothing |
| Cli.ReplayLine | source/cli/main.cpp:165-167 | a line keeps the book valid; a blank or comment line changes nothing; a stop is never a finished replay |
| Cli.CountTrades | source/cli/main.cpp:232-235 | the trade loop adds one per trade and the trade quantities |
| Cli.ReplayAdd | source/cli/main.cpp:223-241 | handing an ADD to the engine object has the effect AddCommandOutcome describes |
| Cli.ReplayCancel | source/cli/main.cpp:243-261 | handing a CANCEL to the engine object has the effect CancelRecordOutcome describes |
| Cli.ReplayStep | source/cli/main.cpp:164-167 | one pass of the loop body has the effect ReplayLine describes |
| Cli.RecordStep | source/cli/main.cpp:169-266 | the handling of a record's cells has the effect RecordOutcome describes |
| Cli.Replay | source/cli/main.cpp:156-270 | the replay loop over a fresh engine computes ReplaySpec |
| Cli.Records | source/cli/main.cpp:166 | the lines that are not skipped, all of them meaningful |
| Cli.ReplayOnlyRecords | source/cli/main.cpp:166 | blank and comment lines, wherever they are, do not change the replay |
| Cli.ReplayNeedsHeader | source/cli/main.cpp:170-181 | a file whose first record is not the header ends with the header error (exit code 3) |
| Cli.ReplayFromStep | source/cli/main.cpp:162-267 | the replay goes on from what its first line leaves, or does not finish |
| Cli.LineCounters | source/cli/main.cpp:165-266 | a line adds one order for an ADD record after the header; one cancel for a CANCEL record exactly when the cancel succeeds; for an ADD the trades and traded_qty grow by the number and total quantity of that command's trades, otherwise they are unchanged; at least one traded unit per trade |
| Cli.RecordCounters | source/cli/main.cpp:183-261 | the same for a record's cells |
| Cli.AddTradesCount | source/cli/main.cpp:232-235 | the trades of one order add at least their number to traded_qty |
| Cli.ReplayCounters | source/cli/main.cpp:162-267 | over a run of lines, orders_add grows by the number of ADD records after the header, orders_cancel by at most the number of CANCEL records, and traded_qty by at least trades |
| Cli.ReplayMetrics | source/cli/main.cpp:223-256 | a finished replay reports orders_add = ADD records after the header, orders_cancel <= CANCEL records, trades <= traded_qty |
| Cli.CancelLineReads | source/cli/main.cpp:165-167 | the line of a CANCEL record is not skipped, splits into its cells, is recognised as CANCEL, and its last cell converts to the id |
| Cli.CancelCellsCancel | source/cli/main.cpp:243-256 | after the header, CANCEL cells whose last cell converts to an id cancel that id and count the cancel when it succeeds |
| Cli.ReplayCancelLine | source/cli/main.cpp:243-256 | after the header, the line of a CANCEL record for an id cancels exactly that id and counts it when it succeeds |
| Cli.ReplayAddLine | source/cli/main.cpp:192-241 | after the header, the line of an ADD record for a command hands exactly that command to the engine and counts it with its trades |

## Left out

- Integer widths. Prices and quantities (int64), ids (uint64), the tool's uint64 counters and the ring's `size_t` indices are unbounded integers. Their wrap-around is not modelled; `market_max_levels` (`Engine.ToInt32`) is the only conversion modelled.
- Concurrency of `SpscRing`: the atomics and memory orders, the `alignas(64)` padding, placement-new and explicit destruction. The ring is sequential, and a slot keeps its stale value after a pop.
- `SpscRing`'s destructor, copy prohibition, `capacity()` accessor, and `emplace` with constructor arguments. `emplace` behaves as `Spsc.SpscRing.Push` of the constructed value.
- `engine_metrics_t` and `IEngine::metrics()`, which `EngineSingleThreaded` does not implement; `locate_t`, which nothing uses; the `make_engine` factory beyond the constructor it calls.
- In the tool: file opening and reading (a file is its sequence of lines), all printing and formatting, the usage and error texts, and the exit code 2.
  - The `--out`, `--no-human` and `--print-trades` options are parsed but only affect printing.
- `std::stoi`, `std::stoll` and `std::stoull` throw on text without a leading number and on values out of range. Nothing catches the exception, so the program ends: the model gives `BadDepth` or `Terminated`.
  - The conversions read base-10 text only, after optional whitespace and an optional sign.
  - `stoull` wraps a negative value modulo 2^64, as `strtoull` does.
- Character classes follow the C locale: `tolower` maps only ASCII letters, and `isspace` means space, tab, newline, vertical tab, form feed or carriage return.
- `source/main.cpp`, `source/cli/main_bench.cpp` and `source/cli/main_m2_demo.cpp` are demonstration, timing and threading drivers. `docs/sphinx/source/conf.py` is documentation configuration with no behaviour. None of them is part of this model.
