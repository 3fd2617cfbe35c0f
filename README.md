# OrderBook-A core in Dafny

This project models the core of a per-symbol limit order book that is rebuilt from Shanghai (SH) and Shenzhen (SZ) market-data events. It covers `x2h::book::OrderBook`, the event records of `include/types.h`, and the helpers in `include/utils.h` that the book and its callers rely on. Those helpers are the digit count, the key tokenizer, the UTC breakdown of a timestamp (`secs_to_tm`), the sub-second splitters and the stock-code prefix tests.

Modules:

- `Types` (types.dfy): the exchange tag, the `Order` and `Trade` records, the exchange-specific side and type codes, and each record's side inference.
- `Queues` (queues.dfy): what the book does to one queue of resting orders, with the queue as a sequence.
  - `remove_if` by order id.
  - The execution walk of `on_traded`, specified by the function `Traded` and carried out in place by the loop method `WalkQueue`.
  - The netting of an incoming order against the late-event store.
- `Levels` (levels.dfy): a side's depth map (`std::map` from price to quantity), held as a sequence of levels in the map's iteration order.
  - How `get_bid_book`/`get_ask_book` build it (`BookOf`).
  - The matching simulation of `match_bid_book`/`match_ask_book`: the functions `Sweep` (inner loop) and `Cross` (outer loop), carried out by the in-place loop methods `SweepLevels` and `CrossLevels`.
- `Book` (order_book.dfy): the class `OrderBook`, whose fields and methods are those of the C++ class. Its methods update the queues, the watermark (`last_order_id_`), the last message time, the best-order caches, the late-event store and the depth snapshots.
  - Invariant `Valid()`: each queue holds positive orders of its own side, and the snapshots are sorted, positive and uncrossed.
- `BookScenarios` (scenarios.dfy): short event sequences run through a fresh book.
- `Digits`, `SubSeconds`, `Tokenizer`, `StockCodes` (digits.dfy, sub_seconds.dfy, tokenize.dfy, stock_codes.dfy): the `utils.h` text and number helpers.
- `CArith` (c_arith.dfy): C's truncating `/` and `%`, and 32-bit wrap-around.
- `CivilTime` (civil_time.dfy): `secs_to_tm`, proved against an independent reference calendar.
  - The reference calendar: `DaysFromCivil` counts days from 1970-01-01 to a proleptic Gregorian date. `Represents(tm, t)` says `tm` is the broken-down UTC time of `t`.
  - `SecsToTm` is the corrected function, and `SecsToTmAsWritten` the code as it stands (see Findings).
- `TimeOverflow` (time_overflow.dfy): concrete inputs on which the two versions of `secs_to_tm` differ.

Modelling choices:

- Prices are integer ticks. The book only compares prices and uses them as map keys, so `double` is not needed.
- Quantities, ids and times are unbounded integers.
- A `std::list` or `std::map` that the source mutates is a `seq` field that the methods reassign.
- The two loops that erase while iterating (the execution walk and the matching simulation) are `while` loops. They erase from and overwrite a sequence in place, and their invariants tie the state to the reference functions.

Behaviour of the code worth noting:

- `on_order` sets the watermark to the event's own `order_id` on both exchanges.
- `on_order` runs the late-store netting (`trade_supped`) for both exchanges, before the SH delete check. An SH delete removes by `order_id`.
- `on_order` does not run the matching simulation. `match_order` is a separate public method.
- `on_traded` stores the *smaller* of the two ids as the late id: `bid_no` when `ask_no > bid_no`.
  - An execution naming bid 5 and ask 0 therefore stores nothing, and order 5 later rests in full (`BookScenarios.LateFillWithoutAskId`).
  - An execution naming bid 5 and ask 6 stores 30 under id 5, and buy order 5 of 30 is then absorbed and never rests (`BookScenarios.LateFillAbsorbs`).
- `on_traded` matches by plain `order_id` on both exchanges, with no business-sequence guard. Each side is walked only when its id is not above the watermark.
- `trade_supped` leaves the late-store entry in place after netting.
- In the matching simulation the outer loop visits every taker level. For each, the inner loop walks the maker levels from the best one while the taker level still has quantity, fills only where the prices cross, and does not stop at a level that does not cross.
- `order_book.cc` reads `trade.bid_no`/`trade.ask_no` while `types.h` names the fields `bid_id`/`ask_id`. The model uses one pair, `bidId`/`askId`.
- `order_book.cc`'s symbol constructor initialises `last_bid_price_`/`last_ask_price_`, which the header does not declare. The model's constructor is the default one (`OrderBook() = default`).

## Model

| member | source | states |
|---|---|---|
| Types.Order.IsBuy | include/types.h:52-56 | buy means side code 'B' on SH and '1' on SZ; a buy is never a sell code |
| Types.Order.IsSell | include/types.h:58-62 | sell means side code 'S' on SH and '2' on SZ; a sell is never a buy |
| Types.Trade.IsBuy | include/types.h:93-96 | `is_buy` holds exactly when the ask id is the larger one; then the ids differ |
| Types.Trade.IsSell | include/types.h:98-101 | `is_sell` holds exactly when the bid id is the larger one; never both |
| Types.BorrowAndLoanHaveNoSide | include/types.h:125-135 | SZ borrow 'G' and loan 'F' orders are neither buy nor sell |
| Types.TradeEqualIdsHaveNoSide | include/types.h:93-101 | a trade with equal ids has no side |
| Queues.Without | src/book/order_book.cc:92-99 | `remove_if` by id drops exactly the orders with that id, keeps every other with its multiplicity, in order |
| Queues.WalkStep | src/book/order_book.cc:248-262 | one visit of the walk reduces the matched order (erasing it at or below zero), erases a stale crossed order, else moves on; it advances the walk invariant |
| Queues.WalkQueue | src/book/order_book.cc:246-283 | the in-place erase-while-iterating walk yields exactly `Traded(q, side, trade)` |
| Queues.TradedSurvivors | src/book/order_book.cc:246-283 | what survives an execution: every unmatched non-stale order, the matched order reduced while positive, and nothing else |
| Queues.TradedKeepsOrder | src/book/order_book.cc:247-263 | survivors keep their relative queue order (time priority) |
| Queues.TradedResting | src/book/order_book.cc:238-284 | an execution keeps a queue of positive orders of its side |
| Queues.NettedFacts | src/book/order_book.cc:286-297 | netting takes `min(stored, qty)` off the order and nothing else; absorbed exactly when nothing is left |
| Levels.SortedPairwise | include/book/order_book.h:34-35 | the level sequence is in map order: of any two levels the earlier price is higher for bids, lower for asks |
| Levels.CreditPrices | include/book/order_book.h:109-111 | `book[price] += qty` adds `price` to the keys and no other key |
| Levels.CreditSorted | include/book/order_book.h:109-111 | `book[price] += qty` keeps map order |
| Levels.CreditQty | include/book/order_book.h:120-122 | `book[price] += qty` raises the value at `price` by `qty` and changes no other value |
| Levels.CreditTotal | include/book/order_book.h:120-122 | the values grow by exactly `qty` |
| Levels.BookSorted | include/book/order_book.h:105-125 | a queue's depth map is in map order |
| Levels.BookPrices | include/book/order_book.h:105-125 | its keys are exactly the queue's prices |
| Levels.BookQty | include/book/order_book.h:105-125 | each key maps to the sum of the quantities resting at that price |
| Levels.BookTotal | include/book/order_book.h:105-125 | the values add up to the queue's total quantity |
| Levels.BookPositive | include/book/order_book.h:105-125 | positive orders give positive levels |
| Levels.SweepConserves | src/book/order_book.cc:129-146 | the inner loop takes from the makers what it takes from the taker, and adds no price |
| Levels.SweepClears | src/book/order_book.cc:129-146 | against positive levels a taker is never overfilled; if it keeps quantity, no crossing maker level is left |
| Levels.SweepSorted | src/book/order_book.cc:167-183 | the inner loop keeps the makers in map order |
| Levels.SweepStep | src/book/order_book.cc:131-145 | one visit fills `min` of the two where the prices cross and erases a level at zero; it advances the loop invariant |
| Levels.SweepLevels | src/book/order_book.cc:129-146 | the in-place inner loop yields exactly `Sweep` |
| Levels.CrossLevels | src/book/order_book.cc:124-154 | the in-place outer loop yields exactly `Cross` |
| Levels.CrossConserves | src/book/order_book.cc:119-192 | both sides lose the same quantity; neither gains a price |
| Levels.CrossUncrosses | src/book/order_book.cc:119-192 | afterwards no remaining taker level crosses a remaining maker level, and all levels are positive |
| Levels.CrossSorted | src/book/order_book.cc:119-192 | both sides stay in map order |
| Levels.CrossLeavesDepth | src/book/order_book.cc:119-192 | sorted positive depths give sorted positive depths with every bid below every ask |
| Book.OrderBook.constructor | include/book/order_book.h:21-38 | an empty book: no orders, empty store and snapshots, watermark 0, valid |
| Book.OrderBook.Size | include/book/order_book.h:53-54 | the number of orders in both queues |
| Book.OrderBook.Empty | include/book/order_book.h:50-51 | empty exactly when both queues are empty |
| Book.OrderBook.NonEmpty | include/book/order_book.h:47-48 | true exactly when some order rests |
| Book.OrderBook.BidBookSnapshot | include/book/order_book.h:100-103 | the bid snapshot is sorted descending, positive and below every ask level |
| Book.OrderBook.AskBookSnapshot | include/book/order_book.h:95-98 | the ask snapshot is sorted ascending, positive and above every bid level |
| Book.OrderBook.AddOrder | src/book/order_book.cc:63-80 | a buy is appended to the bids and becomes best bid when the cache is empty (price 0) or it is strictly higher; likewise a sell with strictly lower; an order of neither side changes nothing |
| Book.OrderBook.TradeSupped | src/book/order_book.cc:286-297 | returns the order netted against the store and whether it was fully absorbed |
| Book.OrderBook.OnOrder | src/book/order_book.cc:82-107 | watermark and time come from the event; an absorbed event changes nothing else; an SH delete removes the id from its side's queue; else the netted order is queued if positive; keeps `Valid()` |
| Book.OrderBook.OnTrade | src/book/order_book.cc:194-204 | time from the record; an SZ record flagged '4' is a cancel, any other an execution; keeps `Valid()` |
| Book.OrderBook.OnCancel | src/book/order_book.cc:206-236 | the id is the bid id if non-zero, else the ask id; removed if not above the watermark, else stored as late |
| Book.OrderBook.OnTraded | src/book/order_book.cc:238-284 | the late id is stored when above the watermark; each side whose id is not above it gets the execution walk |
| Book.OrderBook.GetBidBook | include/book/order_book.h:116-125 | the bid depth is sorted, has exactly the bid prices as keys, their summed quantities as values, and the queue's total |
| Book.OrderBook.GetAskBook | include/book/order_book.h:105-114 | the same for asks, lowest price first |
| Book.OrderBook.MatchBidBook | src/book/order_book.cc:119-155 | only the snapshots change; they are the simulation of the bid depth against the ask depth; both lose the same quantity and add no price; the result is uncrossed |
| Book.OrderBook.MatchAskBook | src/book/order_book.cc:157-192 | the same with the ask levels as takers |
| Book.OrderBook.MatchOrder | src/book/order_book.cc:109-117 | a sell runs the ask-side simulation, a buy the bid-side one, any other leaves the snapshots |
| BookScenarios.PartialFill | src/book/order_book.cc:82-117 | buy 100 at 10.0, sell 40 at 9.5, fill of 40: the bid rests with 60, no ask rests; the simulation for the sell leaves 60 at 10.0 |
| BookScenarios.LateFillAbsorbs | src/book/order_book.cc:238-297 | a fill (bid 5, ask 6) before order 5 is stored under 5 and absorbs order 5 |
| BookScenarios.LateFillWithoutAskId | src/book/order_book.cc:238-244 | a fill (bid 5, ask 0) before order 5 stores nothing; order 5 then rests in full |
| Digits.CountDigit | include/utils.h:59-67 | the count is the number of decimal digits of `|n|`, 0 for 0, bounded by the matching powers of ten |
| Digits.NumDigitsBounds | include/utils.h:59-67 | `n > 0` has `k` digits exactly when `10^(k-1) <= n < 10^k` |
| Digits.NatToDecimalRoundTrip | include/utils.h:279 | the decimal text is digits only, of the digit count's length, and reads back as the number |
| Digits.PaddedDecimal | include/utils.h:276-279 | a number below `10^w` left-padded to `w` is `w` digits reading back as the number |
| CArith.Quot | include/utils.h:273 | C division truncates toward zero |
| CArith.Rem | include/utils.h:274 | C remainder takes the dividend's sign and completes the division |
| SubSeconds.MillisPadded | include/utils.h:276-279 | each branch of the chain pads a remainder below 1000 to three digits |
| SubSeconds.MillisDigits | include/utils.h:271-282 | for `ms >= 0`: three digits, and seconds * 1000 plus their value gives `ms` back; a negative remainder keeps its minus sign behind "00" |
| SubSeconds.ParseMillis | include/utils.h:271-282 | the seconds are `ms / 1000` rounded toward zero: the floor for a non-negative count, the ceiling for a negative one |
| SubSeconds.MicrosPadded | include/utils.h:293-299 | each branch pads a remainder below 10^6 to six digits |
| SubSeconds.MicrosDigits | include/utils.h:287-302 | the same round trip with six digits |
| SubSeconds.ParseMicros | include/utils.h:287-302 | the seconds are `us / 10^6` rounded toward zero: the floor for a non-negative count, the ceiling for a negative one |
| SubSeconds.NanosPadded | include/utils.h:313-322 | each branch pads a remainder below 10^9 to nine digits |
| SubSeconds.NanosDigits | include/utils.h:307-325 | the same round trip with nine digits |
| SubSeconds.ParseNanos | include/utils.h:307-325 | the seconds are `ns / 10^9` rounded toward zero: the floor for a non-negative count, the ceiling for a negative one |
| Tokenizer.FirstNotOf | include/utils.h:83 | `find_first_not_of`: the first index from `pos` not holding the delimiter, or the end |
| Tokenizer.Find | include/utils.h:84 | `find`: the first index from `pos` holding the delimiter, or the end |
| Tokenizer.SkipDelimiters | include/utils.h:83 | skipped delimiters hold no token |
| Tokenizer.TakeToken | include/utils.h:83-85 | from a non-delimiter the next token runs to the next delimiter |
| Tokenizer.Tokenize | include/utils.h:77-87 | the keys afterwards are the old keys plus the tokens; every token maps to 0; every other key keeps its value |
| Tokenizer.TokensAreTokens | include/utils.h:77-87 | every key added is non-empty and free of the delimiter |
| Tokenizer.JoinRoundTrip | include/utils.h:77-87 | tokenizing the delimiter-joined tokens gives them back |
| StockCodes.IsSz | include/utils.h:174-177 | a Shenzhen prefix is exactly "30" or "00" |
| StockCodes.IsSh | include/utils.h:184-187 | a Shanghai prefix is exactly "60" or "68" |
| StockCodes.IsStockCode | include/utils.h:381-388 | six characters whose first two are a Shenzhen or Shanghai prefix |
| StockCodes.ExchangesDisjoint | include/utils.h:174-187 | no prefix is both |
| StockCodes.StockCodeExchange | include/utils.h:381-388 | a stock code belongs to exactly one exchange, Shanghai exactly when it starts with '6' |
| CivilTime.DayAndSecond | include/utils.h:210-216 | the day and second of day since 2000-03-01, with the second in `[0, 86400)` |
| CivilTime.Weekday | include/utils.h:218-219 | the weekday counted from 2000-03-01 (a Wednesday), in `[0, 7)` |
| CivilTime.WeekShift | include/utils.h:218-219 | the weekday from 2000-03-01 equals the weekday from the epoch (a Thursday) |
| CivilTime.Cycles | include/utils.h:221-238 | the 400-, 100-, 4- and 1-year cycles with their bounds, adding back up to the day; a leftover day 365 occurs only when the following February has 29 days |
| CivilTime.CycleDays | include/utils.h:221-244 | the cycles' days are the days of the March-based years they count |
| CivilTime.LeapFlag | include/utils.h:240 | `leap` is 1 exactly when the calendar year that contains the March-based year's March 1st is a leap year |
| CivilTime.YearDay | include/utils.h:240-242 | `yday` is the January-based day of the year |
| CivilTime.MarchMonth | include/utils.h:246-247 | the March-based month and day within it |
| CivilTime.MarchDate | include/utils.h:246-258 | the March-based year, month and day are a valid civil date on the right day |
| CivilTime.BreakDown | include/utils.h:206-247 | the parts give a valid date and second of day that add up to `t`, with the weekday and day of year of that date |
| CivilTime.MonthCarry | include/utils.h:252-257 | January and February carry into the next year |
| CivilTime.BrokenDown | include/utils.h:252-264 | the assembled `struct tm` represents `t` |
| CivilTime.RepresentsUnique | include/utils.h:197-267 | a time has exactly one broken-down form |
| CivilTime.YearFits | include/utils.h:249-250 | the year fits an `int` for one form exactly when it does for every form |
| CivilTime.SecsToTm | include/utils.h:197-267 | returns 0 with the broken-down time exactly when `t` is in range and its year fits an `int`, else -1 with `tm` untouched |
| CivilTime.EpochTime | include/utils.h:197-267 | second 0 is 00:00:00 on Thursday, January 1st, 1970: `tm_year` 70, `tm_mon` 0, `tm_mday` 1, `tm_wday` 4, `tm_yday` 0 |
| CivilTime.EpochSecsToTm | include/utils.h:197-267 | `secs_to_tm(0, tm)` returns 0 with exactly that broken-down time |
| CivilTime.WrappedYear | include/utils.h:244-256 | the year summed in 32-bit `int`s is the true year wrapped |
| CivilTime.SecsToTmAsWritten | include/utils.h:197-267 | returns -1 exactly when `t` is outside the range guard; otherwise 0 with the broken-down time whose year is wrapped to 32 bits |
| TimeOverflow.LastAcceptedYear | include/utils.h:206-208 | the last time the range guard accepts lies in a year beyond `int` |
| TimeOverflow.YearCheckWitness | include/utils.h:244-250 | at that time the code returns 0 with a year that is not the true one, and the corrected version returns -1 |
| TimeOverflow.CarryWitness | include/utils.h:249-257 | at 00:00:00 on January 1st of year `INT_MAX + 1901` the code returns 0 with `tm_year == INT_MIN`, and the corrected version returns -1 |

## Left out

- Printing: `operator<<`, `print_order_book` and the unknown-side diagnostic of `add_order` (the model just leaves such an order out).
- `trade_cache_` and the commented-out reconciliation code in `trade_supped`: they are commented out in the source.
- `last_msg_time()`, `symbol()`, `best_bid()`, `best_ask()`, `get_bid_queue()` and `get_ask_queue()`: plain field reads, which are the fields of `Book.OrderBook`.
- The symbol passed to the constructor: `include/book/symbol.h` is not part of this model.
- The best-order caches are set only on insert and go stale when that order is removed, as in the source. No invariant is claimed for them.
- `int64_t` wrap-around of quantities, ids, times and the sub-second counts: these are unbounded integers in the model. `secs_to_tm`'s 32-bit `int` arithmetic on `years` is modelled, because it matters there (see Findings).
- `double` prices are integer ticks. Equality and order of prices are the only operations the book uses.
- `Queues.WalkQueue`: models `std::list` erase-while-iterating as a sequence rewrite. Iterator invalidation and list node identity are not modelled.
- `Tokenizer.Tokenize`: `std::string::npos` is the string's length, and the map's hashing and bucket order are not modelled.
- `StockCodes.IsStockCode`: an empty code makes `std::string(symbol_code.c_str(), 2)` read past the text (a one-character code reads its terminating NUL). The model compares the first two characters only when there are six.
- `CivilTime.Cycles`: keeps the source's `q_cycles == 25` cap, which can never fire (at most 24 four-year cycles fit below a century).
- The rest of `utils.h`: random numbers, clocks, file reading, CPU affinity, floating-point helpers, `convert_ts_to_time` and time-difference text. These are I/O or platform calls.
- `main.cc`, the data reader and `fast_hash.h` are not part of this model.
- `CivilTime.SecsToTmAsWritten`: signed `int` overflow is undefined behaviour in C++; the model takes the two's-complement wrap that common compilers produce, and lets the `years + 100` test compare the wrapped value.
- `Tokenizer.Tokenize`: splits a string of Unicode characters on one character, where the source splits bytes. The two agree for an ASCII delimiter; a delimiter byte at or above 0x80 could split inside a UTF-8 sequence, which the model does not capture.

## Findings

| source | as written | input that shows it | evidently intended | confidence | as-written member | corrected member |
|---|---|---|---|---|---|---|
| include/utils.h:202,244,249-250 | `years` is an `int`, so `years + 100` is computed in `int` and the guard against it leaving `int` can never fire; `400 * qc_cycles` and the sums overflow (undefined behaviour in C++; modelled as two's-complement wrap) | `t = INT_MAX * 31622400` (67908586878892800), which the range guard accepts: its year lies beyond `INT_MAX + 1900`, yet the function returns 0 with a wrapped year | return -1 when the year does not fit an `int` (the guard works in musl, where `years` is `long long`) | not executed | TimeOverflow.YearCheckWitness | CivilTime.SecsToTm |
| include/utils.h:249-257 | the January/February carry `tm_year++` runs after the overflow check | `t = 67768036191676800`, 00:00:00 on January 1st of year `INT_MAX + 1901`: `years + 100 == INT_MAX` passes the check, and the carry makes `tm_year` `INT_MIN` | check the year after the carry | not executed | TimeOverflow.CarryWitness | CivilTime.SecsToTm |
