# Verified model of the trading middleware's core

The repository connects crypto exchanges to trading services. This project models the parts whose
correctness everything else rests on, and proves what they are for:

* **Order books** (`SortedIndex`, `OrderBookSides`, `OrderBooks`, `IndexedSides`, `IndexedRuns`): the padded float index
  that is searched by bisection and shifted in place, against the plain map it stands for.
* **Exact decimals** (`Decimals`, `StringPrimitives`, `PreciseArithmetic`, `RadixText`, `PreciseReading`,
  `PreciseText`, `PreciseObject`, `NumberFormat`, `NumberText`, `Fees`): unbounded decimal arithmetic, its parser and
  printer, digit-buffer rounding, and the fee reduction built on them.
* **Bounded caches** (`CacheModel`, `Cache`, `CacheWatch`, `SeriesCache`): recency, eviction, and which updates
  a watcher is shown.
* **Protocols** (`Replication`, `Publication`, `Rejoining`, `OrderReplication`, `Throttling`): snapshot and delta
  replication of books, joining a replica, change-filtered replication of orders by overlapping turns, and the token
  bucket throttle, each over every run.
* **Two refinements** (`Crc32`, `Candles`): table-driven CRC-32 against the bitwise definition of section 8 of
  RFC 1952, and single-pass candle building against grouping by period.

Code that changes state is a class or a method over arrays; its contract ties the new state to a function of the
old one, and the lemmas say what that function means over whole runs. Prices, sizes, tokens and clock readings are
real numbers; BigInt values are unbounded integers; CRC registers are 32-bit words. `None` stands for `undefined`,
and for a thrown error where a function can throw.

Where the code does something else than its documentation or name suggests, the model follows the code: one lemma
shows an input, and another says for all inputs when the code does what is promised.

* An indexed side finds entries by price, so a delta can hit the level of another id at the same price
  (`IndexedSides.SharedPriceLosesALevel`); the levels stay right exactly as long as every delta finds its own level
  (`IndexedSides.StepExact`, `IndexedSides.RunExact`).
* An indexed side shows a negative price without its sign once the level was updated (`IndexedRuns.UpdateLosesSign`);
  `IndexedRuns.RunTells` says which price is shown after any run.
* The order cache finds the moved entry by id alone, so an id shared by two symbols can double one entry and lose the
  other (`CacheModel.SharedIdDuplicates`); the cache stays right exactly as long as every append finds its own entry
  (`CacheModel.StoredIsRecent`, `CacheModel.RunIsRecent`).
* Polling one symbol between two updates of an order inflates the counter of all new updates
  (`CacheWatch.SymbolPollShowsOld`); `CacheWatch.AllWatcherSeesFresh` says when a watcher of all orders is shown the
  right ones.
* A watcher of the timestamp cache is shown the newest entry when an older one was updated
  (`SeriesCache.OldUpdateIsMissed`); `SeriesCache.SeriesWatcherSeesNew` says when it is shown the right ones.
* Deltas overwrite the version they start from in the replica's history (`Replication.DeltasOverwriteHistory`);
  `Replication.RunSurvival` says which versions stay, and `Replication.RunHistory` gives the whole history.
* A replica that joins skips what was published up to a millisecond behind the snapshot
  (`Rejoining.JoinSkipsDeltas`); `Rejoining.JoinsExactly` says when it is in step, and `Rejoining.RejoinsExactly` when
  a replica that missed anything at all is in step again.
* An order can fail to reach the replica in two ways: it carries none of the compared fields and its stored state has
  expired (`OrderReplication.StaleAfterExpiry`), or another turn has stored the order between this turn's reading and
  storing (`OrderReplication.OverlapLosesOrder`). `OrderReplication.SavedMirrors` and `OrderReplication.ReplicaMirrors`
  say when the replica mirrors what was stored, for any overlap of turns; `OrderReplication.FreshRunMirrors` says it for
  turns that are not disturbed.
* The number parser accepts more than decimal numbers: white space around the digits, radix prefixes, a sign behind a
  leading point, and anything behind the digits of an exponent (`PreciseText.ParseAccepts`); white space behind a
  fraction even counts as a decimal (`PreciseText.SpaceCountsAsDecimal`), and `PreciseText.WhiteSpaceHarmless` says when
  white space changes nothing.
* Formatting lets through texts with more than one point (`NumberFormat.TwoPointsAccepted`);
  `NumberFormat.DottedIsPlain` says which texts that are let through are numbers.
* An exponent mark without a number gives a number without scale, which cannot be added: fee reduction throws on two
  such costs but not on one (`Fees.NoScaleThrows`); `Fees.ReduceFeesByCurrency` says when it throws, which includes every
  cost given as a JavaScript number, although the source documents such costs.
* With a capacity below zero, or without a positive refill rate, a waiting request is never released
  (`Throttling.StarvationIsReached`); `Throttling.ReleasedWhen` says that in all other configurations it can be, and
  `Throttling.WaitIsBounded` bounds its wait when the delay is positive as well.
* A limit of n makes the candle builder visit n + 1 trades if there are that many (`Candles.LimitOneTakesTwo`,
  `Candles.LimitExceeded`).

## Model

| member | source | states |
|---|---|---|
| SortedIndex.BisectLeft | packages/utils/src/services/ftx/pro/base/OrderBookSide.js:12-21 | On a sorted array the position splits it: everything in front is smaller, everything from there on is not |
| SortedIndex.Locate | packages/utils/src/services/ftx/pro/base/OrderBookSide.js:51-53 | Searching the padded index finds a real key exactly when it is among the live keys, and never points past the first sentinel |
| SortedIndex.InsertKey | packages/utils/src/services/ftx/pro/base/OrderBookSide.js:57-58 | The copyWithin shift and the write insert the key and consume exactly one sentinel |
| SortedIndex.RemoveKey | packages/utils/src/services/ftx/pro/base/OrderBookSide.js:70-71 | The shift back and the sentinel write remove exactly that key; the tail is sentinels again |
| SortedIndex.Grow | packages/utils/src/services/ftx/pro/base/OrderBookSide.js:62-67 | Reallocation keeps every key and leaves at least one sentinel |
| SortedIndex.InsertKeepsSorted | packages/utils/src/services/ftx/pro/base/OrderBookSide.js:51-58 | Inserting where the search splits keeps the keys sorted, and strictly sorted when the key is new |
| OrderBookSides.Survivors | packages/utils/src/services/ftx/pro/base/OrderBookSide.js:47-75 | Over any run of deltas a price survives exactly when the last delta that mentions it has a size and, on a counted side, a count, and then with these |
| OrderBookSides.SortedListIsUnique | packages/utils/src/services/ftx/pro/base/OrderBookSide.js:47-75 | The map determines the sorted list of levels, so refining the map fixes levels, order and positions |
| OrderBookSides.PricesAreSorted | packages/utils/src/services/ftx/pro/base/OrderBookSide.js:47-75 | The levels of a side are sorted exactly when ask prices rise and bid prices fall from level to level |
| OrderBookSides.MapOfLevel | packages/utils/src/services/ftx/pro/base/OrderBookSide.js:47-75 | The map holds every level's own size and count under its price |
| OrderBookSides.OrderBookSide.constructor | packages/utils/src/services/ftx/pro/base/OrderBookSide.js:27-45 | A new side stands for its initial deltas applied in order to the empty map |
| OrderBookSides.OrderBookSide.StoreArray | packages/utils/src/services/ftx/pro/base/OrderBookSide.js:47-75 | A delta without size, on a counted side also one without count, takes its price out of the map; any other sets the price to its size and count; no other price changes. Levels and index stay in step, strictly sorted, sentinel-padded with room to spare, through growth too |
| OrderBookSides.OrderBookSide.InsertLevel | packages/utils/src/services/ftx/pro/base/OrderBookSide.js:116-126 | A new price is added to the map, nothing else changes, and the representation invariant survives growth |
| OrderBookSides.OrderBookSide.RemoveLevel | packages/utils/src/services/ftx/pro/base/OrderBookSide.js:129-132 | Exactly that price leaves the map |
| OrderBookSides.OrderBookSide.StoreAll | packages/utils/src/services/ftx/pro/ftx.js:301-305 | A run of deltas is their application to the map in order |
| OrderBookSides.OrderBookSide.Clear | packages/utils/src/services/ftx/pro/base/OrderBook.js:82-83 | An emptied side is valid whatever its index held before, grown or not |
| OrderBookSides.OrderBookSide.Limit | packages/utils/src/services/ftx/pro/base/OrderBookSide.js:83-90 | The first depth levels remain, they are better than every level dropped, and the invariant is restored |
| OrderBookSides.BestLevels | packages/utils/src/services/ftx/pro/base/OrderBookSide.js:83-90 | Any prefix of the levels is the best part of the map: lower asks, higher bids than all the rest |
| OrderBooks.OrderBook.constructor | packages/utils/src/services/ftx/pro/base/OrderBook.js:25-61 | Both sides of a new book stand for the snapshot's levels; a missing depth becomes the largest safe integer, and a timestamp overrides the snapshot's date text |
| OrderBooks.OrderBook.Reset | packages/utils/src/services/ftx/pro/base/OrderBook.js:81-101 | After a reset sides, nonce, timestamp, date text and symbol depend on the snapshot only: the sides are those of a fresh book |
| OrderBooks.OrderBook.Update | packages/utils/src/services/ftx/pro/base/OrderBook.js:69-79 | A snapshot whose nonce is not newer changes nothing; any other replaces the book |
| OrderBooks.OrderBook.Limit | packages/utils/src/services/ftx/pro/base/OrderBook.js:63-67 | Both sides keep exactly their best levels up to the depth |
| OrderBooks.SameContentsSameLevels | packages/utils/src/services/ftx/pro/base/OrderBook.js:81-101 | Two valid sides with the same map hold the same levels, so no earlier state leaks through a reset |
| OrderBooks.FtxBooks.HandleOrderBookUpdate | packages/utils/src/services/ftx/pro/ftx.js:307-361 | An update message applies its deltas to both sides and takes over its time, also as date text |
| OrderBooks.FtxBooks.HandleOrderBookSnapshot | packages/utils/src/services/ftx/pro/ftx.js:261-293 | A partial message makes the book exactly its levels: an unknown symbol gets a new book whose sides are cut off at a depth of 100, a known one keeps its book object, emptied first; other books are untouched |
| OrderBooks.FtxBooks.HandleMessage | packages/utils/src/services/ftx/pro/ftx.js:203-224 | Behind any run, the book is again the surviving levels of what came since the last partial |
| OrderBooks.FtxBooks.HandleMessages | packages/utils/src/services/ftx/pro/ftx.js:203-224 | Over any run that starts with a partial, both sides hold exactly the levels that survive the deltas since the last partial |
| OrderBooks.RunStep | packages/utils/src/services/ftx/pro/ftx.js:284-331 | A partial forgets all earlier deltas and an update continues from them |
| IndexedSides.StepConsistent | packages/utils/src/services/ftx/pro/base/OrderBookSide.js:175-230 | Every delta (new id, update, price move, missing price, delete) keeps the index sorted and its multiset equal to the prices in the id map, shared prices or not |
| IndexedSides.StepExact | packages/utils/src/services/ftx/pro/base/OrderBookSide.js:175-230 | One delta keeps the levels exactly the id map listed by price, each id once, if and only if the search for the id's price hits the id's own level |
| IndexedSides.RunExact | packages/utils/src/services/ftx/pro/base/OrderBookSide.js:175-230 | Over every run the levels are the id map before and behind every delta if and only if every delta finds its own level |
| IndexedSides.LastStoredIsFound | packages/utils/src/services/ftx/pro/base/OrderBookSide.js:205-213 | The id stored last at a price is the one the next search for that price hits |
| IndexedSides.DistinctRunFindsOwn | packages/utils/src/services/ftx/pro/base/OrderBookSide.js:186-203 | Runs in which no two live ids share a price are among those whose deltas all find their own level |
| IndexedSides.RunFromNothing | packages/utils/src/services/ftx/pro/base/OrderBookSide.js:175-230 | From an empty side, over any run whose deltas find their own levels: sorted keys, one level per surviving id with its last price and size, and no price twice unless two live ids share it |
| IndexedRuns.RunTells | packages/utils/src/services/ftx/pro/base/OrderBookSide.js:175-230 | Over every run that prices its new ids, an id lives exactly when its last delta has a size; it has that size and the price last given to it since it was new, where neither a missing price nor a price of zero gives one; the level shows that price, without its sign if the level was updated since |
| IndexedRuns.UpdateLosesSign | packages/utils/src/services/ftx/pro/base/OrderBookSide.js:186-195 | A level stored at minus one is shown at one after an update of its size |
| IndexedRuns.RunHolds | packages/utils/src/services/ftx/pro/base/OrderBookSide.js:175-230 | Over every run allowed, whatever levels its searches hit, the id map holds exactly the keys of that law |
| IndexedRuns.StepReplaces | packages/utils/src/services/ftx/pro/base/OrderBookSide.js:175-230 | A delta of a live id takes out the first level at the key held for it, be it the id's own or not, and a delta with a size puts in its level; no other level changes |
| IndexedSides.SharedPriceLosesALevel | packages/utils/src/services/ftx/pro/base/OrderBookSide.js:221-229 | Two ids at one price: deleting the one stored first does not find its own level, leaves it and drops the other's |
| IndexedSides.IndexedOrderBookSide.StoreArray | packages/utils/src/services/ftx/pro/base/OrderBookSide.js:175-230 | The in-place index, level array and id map take exactly the step the run lemmas speak of, growth included |
| PreciseArithmetic.MulExact | packages/utils/src/services/ftx/base/Precise.js:28-32 | The value of a product is the product of the values |
| PreciseArithmetic.AddExact | packages/utils/src/services/ftx/base/Precise.js:50-62 | The value of a sum is the sum of the values, at any mix of scales |
| PreciseArithmetic.SubExact | packages/utils/src/services/ftx/base/Precise.js:73-76 | The value of a difference is the difference of the values |
| PreciseArithmetic.ComparisonsExact | packages/utils/src/services/ftx/base/Precise.js:94-110 | gt, ge, lt and le decide the order of the values |
| PreciseArithmetic.AbsMinMaxExact | packages/utils/src/services/ftx/base/Precise.js:78-92 | abs, min and max give the value's absolute value, minimum and maximum |
| PreciseArithmetic.ResultDecimals | packages/utils/src/services/ftx/base/Precise.js:28-92 | Products add their decimals, sums, differences and remainders take the larger number, a quotient has the precision, and min and max return one of the operands |
| PreciseArithmetic.DivTruncates | packages/utils/src/services/ftx/base/Precise.js:34-48 | div is the exact quotient truncated toward zero at the precision, also in the branch that truncates twice |
| Decimals.TruncDivTwice | packages/utils/src/services/ftx/base/Precise.js:39-46 | Truncating by one divisor and then by another is truncating once by their product, for any signs |
| PreciseArithmetic.ModLaw | packages/utils/src/services/ftx/base/Precise.js:64-71 | x is q times y plus the remainder for the integer q truncated from the quotient; the remainder is smaller than y and zero or of x's sign |
| PreciseText.ParseExact | packages/utils/src/services/ftx/base/Precise.js:9-26 | Every written decimal (sign, whole part, fraction, exponent) is accepted and read as exactly the value it denotes |
| PreciseReading.ParseReads | packages/utils/src/services/ftx/base/Precise.js:9-26 | Every accepted text is read as its integer, scaled by the number of characters behind the point and by the exponent |
| PreciseReading.ParseNumbers | packages/utils/src/services/ftx/base/Precise.js:9-26 | Read as numbers are exactly the texts made of white space, an integer in decimal or with a radix prefix, white space, a point anywhere, and optionally a mark, white space, a sign, digits and anything that does not continue them |
| PreciseReading.ParseThrows | packages/utils/src/services/ftx/base/Precise.js:17-20 | The constructor throws exactly on texts that do not begin with such an integer up to their end or first mark; a mark without digits behind it leaves the number without scale |
| StringPrimitives.WhiteIs | packages/utils/src/services/ftx/base/Precise.js:15-20 | White space is what ECMAScript calls white space or a line terminator, code point by code point |
| RadixText.PrefixedReads | packages/utils/src/services/ftx/base/Precise.js:17-20 | Hexadecimal, octal and binary numerals of any number, in either case and between white space, are read back as that number |
| RadixText.HexParses | packages/utils/src/services/ftx/base/Precise.js:13-16 | A hexadecimal numeral behind an exponent mark is read back, with its sign |
| PreciseText.ParseAccepts | packages/utils/src/services/ftx/base/Precise.js:9-26 | Read as numbers are exactly the written decimals and the texts of those shapes with white space, a radix prefix, a sign behind a leading point, or an exponent with white space, a prefix or a rest; no text is both |
| PreciseText.SignAfterDotExample | packages/utils/src/services/ftx/base/Precise.js:17-21 | The text .-5 is read as minus five hundredths |
| PreciseText.SpaceCountsAsDecimal | packages/utils/src/services/ftx/base/Precise.js:17-21 | The text 1.5 with a space behind it is read as fifteen hundredths |
| PreciseText.WhiteSpaceHarmless | packages/utils/src/services/ftx/base/Precise.js:17-21 | Every accepted text is read as the same number as the text without its white space if and only if the number is zero or no white space stands behind the point |
| PreciseText.ReducedExact | packages/utils/src/services/ftx/base/Precise.js:112-133 | Reducing keeps the value |
| PreciseText.ReducedUnique | packages/utils/src/services/ftx/base/Precise.js:135-139 | Two numbers have the same reduced form exactly when they have the same value |
| PreciseText.PrintCanonical | packages/utils/src/services/ftx/base/Precise.js:141-167 | Printed text is canonical: no superfluous zeros, no exponent, no plus sign, no minus zero |
| PreciseText.PrintRoundTrip | packages/utils/src/services/ftx/base/Precise.js:141-167 | Parsing printed text gives back the value |
| PreciseText.PrintUnique | packages/utils/src/services/ftx/base/Precise.js:141-167 | Two numbers print alike exactly when they are equal |
| PreciseText.ParseThenPrint | packages/utils/src/services/ftx/base/Precise.js:9-26 | Parsing canonical text and printing the result gives back the text |
| PreciseObject.Precise.Reduce | packages/utils/src/services/ftx/base/Precise.js:112-133 | Scanning and slicing the printed integer leaves the object in its reduced form |
| PreciseObject.Precise.Equals | packages/utils/src/services/ftx/base/Precise.js:135-139 | equals decides equality of the values, and leaves both objects reduced |
| PreciseObject.Precise.ToString | packages/utils/src/services/ftx/base/Precise.js:141-167 | The spliced digits are the canonical text, and the object is left reduced |
| NumberText.ExpansionExact | packages/utils/src/services/ftx/base/functions/number.js:44-73 | Every number text is expanded without error to a text without exponent that denotes the same number |
| NumberText.SmallByExponent | packages/utils/src/services/ftx/base/functions/number.js:50-59 | With an exponent, a number is below one in magnitude exactly when the exponent is negative, so the branches match the notation |
| NumberText.ExpandedIsPlain | packages/utils/src/services/ftx/base/functions/number.js:148-150 | The expanded text is a valid input of the rounding, with the number's own sign and magnitude |
| NumberText.NumberToPrecision | packages/utils/src/services/ftx/base/functions/number.js:97-150 | Expanding and then formatting a number shows that number, rounded |
| NumberFormat.DottedIsPlain | packages/utils/src/services/ftx/base/functions/number.js:183-197 | Of the texts the copying loop lets through, digits and points behind an optional minus sign, exactly those with at most one point are numbers |
| NumberFormat.TwoPointsAccepted | packages/utils/src/services/ftx/base/functions/number.js:187-188 | A text with two points is let through |
| NumberFormat.CopyDigits | packages/utils/src/services/ftx/base/functions/number.js:148-199 | The copying loop accepts exactly texts of digits and points, and for a number leaves a zero, all its digits, the point's place and the first significant digit |
| NumberFormat.RoundDigits | packages/utils/src/services/ftx/base/functions/number.js:210-250 | The right-to-left carry loop leaves the digits in front of the cut, plus one if the digit at the cut rounds up, followed by zeros, and finds the first and last significant digit |
| NumberFormat.RoundedValue | packages/utils/src/services/ftx/base/functions/number.js:223-250 | Those digits denote the number rounded half away from zero, or truncated, at the cut |
| NumberFormat.CutIsPlaces | packages/utils/src/services/ftx/base/functions/number.js:203-206 | The cut position means n decimals, or n digits from the leading one |
| NumberFormat.SignificantDigits | packages/utils/src/services/ftx/base/functions/number.js:254-257 | Rounding to n significant digits leaves between one and n of them, even when a carry moves the first one |
| NumberFormat.LeadingExponentIs | packages/utils/src/services/ftx/base/functions/number.js:203-206 | The leading exponent used for significant digits is the number's own: it lies between that power of ten and the next |
| NumberFormat.Emit | packages/utils/src/services/ftx/base/functions/number.js:265-295 | The output buffer is sign, whole part, point and padded fraction, the point only where there is a fraction |
| NumberFormat.ShownIsRounded | packages/utils/src/services/ftx/base/functions/number.js:259-296 | The printed text denotes the number in the buffer, without superfluous zeros and without minus zero |
| NumberFormat.PaddedLength | packages/utils/src/services/ftx/base/functions/number.js:274-280 | Padding shows exactly n decimals, or the decimals that n significant digits need |
| NumberFormat.DecimalToPrecision | packages/utils/src/services/ftx/base/functions/number.js:148-296 | For every plain decimal string and n: the text has the rounded value at n decimals or n significant digits, is tidy, has no minus zero, no trailing zeros when not padded, exactly n decimals when padded in decimals; an error exactly for texts with anything but digits and points behind the sign |
| Fees.StringAddExact | packages/utils/src/services/ftx/base/Precise.js:187-197 | Adding two cost texts gives a readable text that denotes the exact sum, a missing cost adds nothing, and it throws exactly when both are written and one has no scale |
| Fees.EqualsZeroIsZero | packages/utils/src/services/ftx/base/Precise.js:234-239 | A cost equals zero exactly when it is written and its value, or without scale its integer, is zero |
| Fees.ReduceFeesByCurrency | packages/utils/src/services/ftx/base/Exchange.js:1367-1402 | One line for each currency text and rate text, or missing rate, of a given fee whose cost is missing or no written zero; the line's cost is worth the sum of all given cost texts of that currency and rate, keeps its text if written alone and is printed otherwise. Undefined, null and empty properties are missing. An error exactly when a cost is a JavaScript number or a text the number parser rejects, or two costs of one line are added of which one has no scale |
| Fees.NoScaleThrows | packages/utils/src/services/ftx/base/Exchange.js:1383-1384 | A single cost without scale is kept, two of them throw |
| Fees.ReductionConserves | packages/utils/src/services/ftx/base/Exchange.js:1367-1402 | Every such list of lines has, per currency, exactly the total of the fees |
| CacheModel.StoredIsRecent | packages/utils/src/services/ftx/pro/base/Cache.js:167-187 | Moving, evicting and pushing keep exactly the most recently updated orders, oldest first, with the index holding the same ones, if and only if the search by id hits the order's own entry |
| CacheModel.KnownIsMoved | packages/utils/src/services/ftx/pro/base/Cache.js:171-187 | An append of a known order takes out the first entry with its id, of whatever symbol, or the last entry if none has it; then the oldest goes if the array is full, and the order comes last |
| CacheModel.SliceTailIs | packages/utils/src/services/ftx/base/Exchange.js:667-669 | The tail holds the last entries, as many as the limit says and there are, and all of them for a limit of 0 |
| CacheModel.RunIsRecent | packages/utils/src/services/ftx/pro/base/Cache.js:167-187 | Over every run the cache holds exactly the most recent orders before and behind every event if and only if every append finds its own entry |
| CacheModel.OneSymbolAlwaysFinds | packages/utils/src/services/ftx/pro/base/Cache.js:177-179 | Runs in which no id is shared by two symbols are among those whose appends all find their own entry |
| CacheModel.AppendIsAccounted | packages/utils/src/services/ftx/pro/base/Cache.js:167-207 | A symbol's new ids are a suffix of its entries, through moves, evictions and lazy clears |
| CacheModel.UpdateTracks | packages/utils/src/services/ftx/pro/base/Cache.js:188-206 | An append keeps the id sets exactly the ids updated since the poll before their symbol's last update |
| CacheModel.RunInvariant | packages/utils/src/services/ftx/pro/base/Cache.js:155-208 | After every run of appends and polls whose appends find their own entries: recency, accounting and tracking hold together |
| CacheModel.TailIsNew | packages/utils/src/services/ftx/base/Exchange.js:672-685 | A tail of as many of a symbol's entries as it has new ids is exactly its new cached entries |
| CacheModel.WatcherSeesNew | packages/utils/src/services/ftx/pro/ftx.js:472-499 | A watcher of one symbol gets exactly the cached orders updated since the last poll before the symbol's last update, in order, or the last of them for a positive limit; without a counter, or for a limit of 0, the symbol's entries as the limit says, 0 showing all |
| CacheModel.SharedIdDuplicates | packages/utils/src/services/ftx/pro/base/Cache.js:177-179 | An id shared by two symbols: one entry is duplicated and the other is lost while its index entry stays |
| CacheWatch.RunTracksAll | packages/utils/src/services/ftx/pro/base/Cache.js:188-206 | Over every run the counter of all new updates is at least the number of orders updated since the poll of all, and equal to it exactly when no such order was announced twice |
| CacheWatch.AllWatcherSeesFresh | packages/utils/src/services/ftx/pro/ftx.js:472-499 | A watcher of all orders gets exactly the cached orders updated since then, or the last of them for a positive limit, if and only if none was announced twice, every cached order is one of them, or the limit is no more than they are; a limit of 0 shows all orders |
| CacheWatch.SymbolPollShowsOld | packages/utils/src/services/ftx/pro/base/Cache.js:197-206 | Two updates of an order with a poll of its symbol in between count twice, and an old order is shown |
| Cache.ArrayCacheBySymbolById.constructor | packages/utils/src/services/ftx/pro/base/Cache.js:157-165 | A new cache is the empty state |
| Cache.ArrayCacheBySymbolById.GetLimit | packages/utils/src/services/ftx/pro/base/Cache.js:52-73 | The object's poll is the modelled poll: the limit is the number of new updates or the smaller user limit, entries and index stay, and only the clear flag changes |
| Cache.ArrayCacheBySymbolById.Append | packages/utils/src/services/ftx/pro/base/Cache.js:167-207 | For every order the object's append is the modelled append, wrong splices included; a known order keeps its object and takes over the new properties, others are untouched; while appends find their own entries, every entry is the very object its index slot holds |
| SeriesCache.SeriesInvariant | packages/utils/src/services/ftx/pro/base/Cache.js:130-152 | Over every run the cached times are distinct, bounded and the keys of the map, and the tracker holds exactly the times updated with no poll before the last update |
| SeriesCache.RunByArrival | packages/utils/src/services/ftx/pro/base/Cache.js:130-145 | The array lists times by their last arrival, and evicted times arrived before all cached ones |
| SeriesCache.SeriesWatcherSeesNew | packages/utils/src/services/ftx/base/Exchange.js:661-670 | The tail shows exactly the cached new entries if and only if no cached entry that was not updated arrived after one that was; for a positive limit it shows the last of them if and only if that holds or, when there are as many, the last entries were all updated; a limit of 0 shows all entries |
| SeriesCache.InOrderWatcherSeesNew | packages/utils/src/services/ftx/pro/base/Cache.js:122-152 | With times that never go back the watcher sees exactly the updated entries, or the last of them for a positive limit, evictions included |
| SeriesCache.OldUpdateIsMissed | packages/utils/src/services/ftx/pro/base/Cache.js:130-152 | Updating an older time shows the newest entry instead |
| SeriesCache.ArrayCacheByTimestamp.Append | packages/utils/src/services/ftx/pro/base/Cache.js:130-152 | A known time keeps its place and object, a new one goes to the end or displaces the oldest; the map holds the very objects of the array |
| SeriesCache.ArrayCacheByTimestamp.GetLimit | packages/utils/src/services/ftx/pro/base/Cache.js:122-128 | The count of new times, or the smaller user limit; the tracker is marked for clearing |
| Replication.GetArrayDiff | packages/gatherer/src/services/datastreamer-service.ts:510-528 | The two loops give what only the second list has and what only the first has, in order |
| Replication.PatchRestores | packages/magicbox/src/services/datastream-service.ts:217-222 | Removing, appending and re-sorting by the diff of two sides turns the first into exactly the second |
| Replication.DiffIsMinimal | packages/gatherer/src/services/datastreamer-service.ts:510-528 | The diff never adds what it removes, and is empty exactly when the sides are equal |
| Replication.MinusOfParts | packages/gatherer/src/services/datastreamer-service.ts:510-528 | The diff decides every element by itself and keeps their order |
| Replication.PatchedSide | packages/magicbox/src/services/datastream-service.ts:217-222 | Behind a diff of any kind, on a side in any state, what is removed is gone, every other quote is there as often as before, what is added is added, and the side is sorted by price |
| Replication.SortByIsStable | packages/magicbox/src/services/datastream-service.ts:221-222 | Sorting keeps quotes at one price in their order |
| Replication.Gatherer.OnOrderBook | packages/gatherer/src/worker.ts:83-113 | Publishes a snapshot when none was sent or the last one sent is more than a minute old, and only then takes over the time; else the deltas from the remembered book unless they are empty; stamped with the book's timestamp or else the local time; and remembers the book |
| Publication.SnapshotTimes | packages/gatherer/src/worker.ts:88-93 | Over every run, a snapshot is published for the first book and for every book observed more than a minute after the latest one for which one was, and for no other |
| Publication.SentIs | packages/gatherer/src/worker.ts:83-112 | Over every run, each observation publishes at most one message, with the book's timestamp or else the local time, its nonce and its date; a snapshot has the book's sides, deltas add and remove exactly what differs from the book observed before, and nothing is published exactly when no snapshot is and the sides are the same |
| Publication.NewestMeta | packages/magicbox/src/services/datastream-service.ts:224-229 | The newest version at a replica carries the metadata of the last message |
| Replication.Replica.HandleOrderBookMessage | packages/magicbox/src/services/datastream-service.ts:193-230 | A snapshot is pushed; deltas patch the newest book and push the result, or are dropped when there is none; other keys are untouched |
| Replication.HandledVersions | packages/magicbox/src/services/datastream-service.ts:193-230 | A snapshot becomes the newest version; deltas change the newest version in place and put a copy in front; both keep all older versions up to the cache size |
| Replication.Replica.PushToObservable | packages/magicbox/src/services/datastream-service.ts:129-150 | The newest version comes first and the history is cut off at the cache size |
| Replication.PublishedKeepsStep | packages/gatherer/src/worker.ts:88-112 | What one observation publishes keeps, or brings, a replica in step |
| Replication.RunInStep | packages/magicbox/src/services/datastream-service.ts:193-230 | After every non-empty run of sorted books, whatever the snapshot timing, replaying the log leaves the newest book equal to the last one observed, within the cache size |
| Rejoining.RejoinsExactly | packages/magicbox/src/services/datastream-service.ts:193-230 | A replica with any sorted book that reads everything published behind some observation is in step again if and only if a snapshot was published since or every quote it had wrong then has left the observed book since |
| Rejoining.JoinReads | packages/magicbox/src/services/datastream-service.ts:73-121 | A replica that joins handles its snapshot and then exactly the entries whose ids are behind number 0 of the next millisecond |
| Rejoining.JoinsExactly | packages/magicbox/src/services/datastream-service.ts:73-121 | A replica that joins at a snapshot and reads on from the next millisecond is in step if and only if a snapshot was published behind that position or every quote in which the snapshot differs from the book observed there has left the book since |
| Rejoining.JoinsBehindSnapshot | packages/magicbox/src/services/datastream-service.ts:73-121 | When no entry lies between the snapshot and that position, the joining replica is in step |
| Rejoining.JoinSkipsDeltas | packages/magicbox/src/services/datastream-service.ts:81-88 | Deltas of the snapshot's own millisecond are skipped and the replica keeps an ask that is gone |
| Replication.PublishedSurvival | packages/magicbox/src/services/datastream-service.ts:205-229 | Of what the gatherer publishes, exactly the snapshots keep the version that a replica in step finds newest |
| Replication.RunSurvival | packages/magicbox/src/services/datastream-service.ts:205-229 | Over every run, the version newest so far is kept behind the next published one if and only if a snapshot is due |
| Replication.ReplayedIsHistory | packages/magicbox/src/services/datastream-service.ts:129-150 | For every log that starts with a snapshot, the cached versions are, the newest first and cut off at the cache size, each snapshot's version once and each deltas' version twice, each once less if deltas follow |
| Replication.RunHistory | packages/magicbox/src/services/datastream-service.ts:129-150 | What the gatherer publishes over any run starts with a snapshot, so its replica's versions are that history |
| Replication.DeltasOverwriteHistory | packages/magicbox/src/services/datastream-service.ts:215-229 | Removing the only ask of a cached book leaves two equal empty versions |
| OrderReplication.OrderGatherer.Look | packages/gatherer/src/worker.ts:42-43 | A turn reads the compared fields of the stored order, or none |
| OrderReplication.OrderGatherer.Save | packages/gatherer/src/worker.ts:45-51 | The order is stored whole, and emitted whole exactly when its status, filled, amount or remaining differs from what its turn has read, whatever is stored by then |
| OrderReplication.OrderGatherer.HandleOrders | packages/gatherer/src/worker.ts:35-53 | A turn that nothing interrupts reads and stores its orders one after the other |
| OrderReplication.OrderReplica.HandleOrdersMessage | packages/magicbox/src/services/datastream-service.ts:162-191 | In the newest list the order replaces the first one with its id, whole and in its place, and no other order is touched; an order with a new id comes in front of all; other keys are untouched |
| OrderReplication.ReplayedListsLog | packages/magicbox/src/services/datastream-service.ts:174-187 | Over every log, replaying it leaves one entry per id, the last order with that id in every field, with the ids in the order of their first orders, the newest in front |
| OrderReplication.UpsertMirrors | packages/magicbox/src/services/datastream-service.ts:176-183 | Upserting keeps one entry per id with the latest compared fields |
| OrderReplication.SavedMirrors | packages/gatherer/src/worker.ts:43-51 | One more stored order keeps the replica a mirror if and only if its turn has read other fields, or the order stored last with its id carries the same fields |
| OrderReplication.ReplicaMirrors | packages/gatherer/src/worker.ts:35-53 | Over every run, with turns that overlap in any way and stored orders expiring at any time, replaying only the emitted orders gives one entry per id with the compared fields of the order stored last, before and behind every event, if and only if every stored order meets that condition |
| OrderReplication.FreshRunMirrors | packages/gatherer/src/worker.ts:35-53 | Over every run in which what a turn has read is still what is stored when it stores, that is so if and only if every order carries a compared field, is still stored, or follows one with its id that carried none either |
| OrderReplication.UndisturbedRunIsFresh | packages/gatherer/src/worker.ts:43-46 | Runs in which nothing is stored or expires for an id between a turn's reading and storing are among those |
| OrderReplication.TurnIsUndisturbed | packages/gatherer/src/worker.ts:41-52 | A turn that nothing interrupts is undisturbed, whatever ran before it |
| OrderReplication.TurnExtendsRun | packages/gatherer/src/worker.ts:41-52 | Such a turn of the gatherer object extends the run by its reads and stores, so the run lemmas speak of the object's own hash and log |
| OrderReplication.StatesReach | packages/gatherer/src/worker.ts:40-48 | Undisturbed runs in which every order carries a compared field are mirrored |
| OrderReplication.StaleAfterExpiry | packages/gatherer/src/worker.ts:46-51 | Stored with a status, expired, stored without fields: nothing is emitted and the replica keeps the status |
| OrderReplication.OverlapLosesOrder | packages/gatherer/src/worker.ts:127-135 | Two turns read an open order before either stores: one stores and emits it closed, the other stores it open again and emits nothing, and the replica keeps it closed |
| OrderReplication.StatelessIsDropped | packages/gatherer/src/worker.ts:47-48 | Behind any run, a turn with an order that is not stored emits it exactly when it carries one of the compared fields |
| Throttling.Throttle.Inner | packages/utils/src/services/ftx/base/functions/throttle.js:50-65 | A call is refused, without effect, exactly when the queue is over its capacity; otherwise its request, with the default cost if none is given, comes last, and an idle loop starts at that time and tries it; the queue invariant holds |
| Throttling.Throttle.Continue | packages/utils/src/services/ftx/base/functions/throttle.js:24-46 | Behind a release the loop tries the next head or ends; behind a sleep the tokens become the lesser of tokens plus refill for the time since its timestamp and the capacity, and the head is tried on these: released for its cost if they are not below zero, left waiting otherwise; the queue invariant holds |
| Throttling.StepKeepsInv | packages/utils/src/services/ftx/base/functions/throttle.js:24-65 | Every interleaving keeps: a waiting request means a running loop, requests are released in call order, each once, and the queue holds at most maxCapacity + 1 |
| Throttling.StepConserves | packages/utils/src/services/ftx/base/functions/throttle.js:24-65 | Released and waiting requests together only grow, by the accepted call; at most one request is released a step |
| Throttling.RateBound | packages/utils/src/services/ftx/base/functions/throttle.js:24-46 | From any state of a run with a monotone clock, the cost released later is at most the tokens held, the refill for the elapsed time and one largest cost; the tokens stay between minus the largest cost and the greater of capacity and initial tokens |
| Throttling.RunAccounts | packages/utils/src/services/ftx/base/functions/throttle.js:24-65 | Over every run, tokens left plus cost released are at most the initial tokens plus what the wake-ups brought in, and exactly that if and only if no wake-up brought in more than the capacity allows |
| Throttling.ReleasedWhen | packages/utils/src/services/ftx/base/functions/throttle.js:24-46 | A waiting head request can be released, by some calls and wake-ups on a clock that does not run backwards, if and only if the refill rate is positive and the capacity is not below zero |
| Throttling.LateWakeReleases | packages/utils/src/services/ftx/base/functions/throttle.js:37-44 | With such a configuration a single wake-up at the time the refill has made up the deficit releases the head |
| Throttling.WaitIsBounded | packages/utils/src/services/ftx/base/functions/throttle.js:37-44 | With positive refill rate and delay and a capacity not below zero: while a head request waits, every wake-up makes up at least one delay's refill of its deficit, which bounds the number of wake-ups |
| Throttling.NegativeCapacityStarves | packages/utils/src/services/ftx/base/functions/throttle.js:42-43 | With a capacity below zero a waiting head is never released |
| Throttling.NoRefillStarves | packages/utils/src/services/ftx/base/functions/throttle.js:37-44 | With a refill rate that is not positive a waiting head is never released while the clock does not run backwards |
| Throttling.StarvationIsReached | packages/utils/src/services/ftx/base/functions/throttle.js:24-65 | With a capacity below zero or a refill rate that is not positive, two calls on an empty bucket and one turn of the loop leave the second request waiting for ever |
| Crc32.EntryIsEight | packages/utils/src/services/ftx/base/functions/crypto.js:151-154 | Each of the 256 literal entries is the image of its index under eight polynomial steps |
| Crc32.TableStepIsByteStep | packages/utils/src/services/ftx/base/functions/crypto.js:156-158 | One table step takes in the low byte of the character as eight bit steps do |
| Crc32.CrcOf | packages/utils/src/services/ftx/base/functions/crypto.js:150-165 | For every string of code units the result is the bitwise CRC-32 of their low bytes, unsigned or in two's complement |
| Candles.BuildOHLCVC | packages/utils/src/services/ftx/base/functions/misc.js:43-78 | The accepted trades, in any order, fall into consecutive blocks, one for each candle with its first, highest, lowest and last price, total and number; a block ends where a later period begins. Opening times are strictly increasing multiples of the period; sorted trades give exactly their grouping by period |
| Candles.AcceptedParts | packages/utils/src/services/ftx/base/functions/misc.js:50-54 | Trades are accepted one by one and in their order |
| Candles.AcceptedMembers | packages/utils/src/services/ftx/base/functions/misc.js:50-54 | Accepted are exactly the trades that are not older than the starting time, if there is one |
| Candles.VisitedAt | packages/utils/src/services/ftx/base/functions/misc.js:48-50 | Without a limit every trade is visited, with one exactly those at indices up to and including it |
| Candles.LimitExceeded | packages/utils/src/services/ftx/base/functions/misc.js:48-50 | A limit is exceeded exactly when it is not negative and there are more trades than it says, and then by one trade |
| Candles.LimitOneTakesTwo | packages/utils/src/services/ftx/base/functions/misc.js:48-50 | A limit of one over two trades takes both |
| Candles.NewCandleGroups | packages/utils/src/services/ftx/base/functions/misc.js:56-66 | A trade past the last period opens the only candle of its own period |
| Candles.UpdateGroups | packages/utils/src/services/ftx/base/functions/misc.js:67-74 | A trade of the last period updates high, low, close, volume and count to those of the larger group |
| Candles.GroupingIsUnique | packages/utils/src/services/ftx/base/functions/misc.js:43-78 | Sorted trades have one grouping only: one candle per non-empty period, with its first, highest, lowest and last price, total and number |

## Left out

- NumberFormat.DecimalToPrecision: negative precision and tick size are not modelled, because they compute with floating-point remainders; what is printed for a text with more than one point is not described.
- NumberText.NumberToString: the texts JavaScript prints for infinities and not-a-number are excluded, and the comparison of the number with one is a parameter that the contract ties to the text's value.
- PreciseReading.Parse: an exponent is an unbounded integer, while parseInt rounds more than fifteen digits and gives infinity for very many; characters outside ASCII have no lower case in the model, and none of them is accepted as part of a number in either.
- Printing, comparing and computing with a number without scale are modelled only as far as fee reduction does them.
- PreciseArithmetic.Div: a zero divisor, which throws, is a precondition here; the static string wrapper looks for it first.
- Candles.BuildOHLCVC: the timeframe's length is a positive parameter, so the parsing of timeframe names is not covered; prices and amounts are exact reals.
- Fees.ReduceFeesByCurrency: the order of the lines is left open, because integer-like keys come first in JavaScript objects; currency codes and rates that collide with inherited property names are not considered.
- OrderBookSides.OrderBookSide.StoreArray: levels are values, so sharing of a caller's level arrays with the book is not modelled; prices are finite and missing sizes are not distinguished from zero.
- OrderBooks.OrderBook.constructor: the ISO 8601 text of a timestamp is a function parameter; other snapshot properties are not copied.
- OrderBooks.FtxBooks.HandleOrderBookUpdate: the checksum comparison is left out; it only rejects a waiting caller and does not change the book.
- OrderBooks.FtxBooks.HandleMessage: of the message types only partial and update on the order book channel are modelled; the others do not touch order books.
- The constructor from deltas, limit and reset of indexed sides are not modelled: limit deletes from the id map by price, and reset does not clear that map.
- Cache.ArrayCacheBySymbolById.Append: order properties are one map of names to texts; symbol and id are constant, because an update finds its object by them.
- CacheModel.WatcherSeesNew: the filter by a starting time is left out, here and for the other watchers (CacheWatch.AllWatcherSeesFresh, SeriesCache.SeriesWatcherSeesNew).
- ArrayCache, the base cache of trades, is left out: its append is the same accounting with plain counters and no moves.
- Replication.Gatherer.OnOrderBook: the symbol, the local time and other properties of a published book are left out.
- Replication.RunInStep: the two streams are one log in publication order, because a reader with one cursor over two streams may skip or reorder entries; what follows from skipping is `Rejoining.RejoinsExactly`, reordering is not modelled; trimming of the streams and failures of the store are left out.
- Rejoining.JoinsExactly: the ids of the two streams are ordered as the messages were published, as one server's clock orders them.
- Replication.Replica.HandleOrderBookMessage: emission to subscribers and its freshness condition are left out, as are the symbol and local time of a message.
- Replication.Replica.PushToObservable: emission to subscribers is left out.
- OrderReplication.OrderReplica.HandleOrdersMessage: emission of the single order to subscribers is left out.
- OrderReplication.OrderGatherer.Save: storing and emitting are one step, because one connection answers its commands in order, so orders are emitted in the order in which they were stored; the worker is the only writer of the order hash, and an order is stored as it is rather than through JSON text.
- Throttling.RateBound: the elapsed time is measured between the loop's own timestamps, which never run ahead of the clock.
- The clock, timers, promises, Redis, web sockets and HTTP are parameters or left out; floating-point rounding of prices, sizes and tokens is not modelled.
- The web interface, trading plugins, request signing, market parsing and configuration are left out.
