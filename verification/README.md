# EngineMev: verified model of the decision core

EngineMev searches Solana token pools for circular trades, simulates them with integer arithmetic, sends the good ones
as bundles, and has a small on-chain program execute them under a profit floor. This project models the parts of it
that decide something, and proves what they guarantee. `dafny verify dfyconfig.toml` checks all of it.

| part of the system | modules |
|---|---|
| machine integers (`u64`, `u128`, `i128`, checked, saturating and wrapping operations) and addresses | `Machine`, `Address` |
| quote engine: one swap step, the tick walk, the bin walk, constant product | `SwapStep`, `TickWalk`, `TickWalkLaws`, `TickProfile`, `TickQuoteLaws`, `FloorDivision`, `BinWalk`, `BinWalkLaws`, `ConstantProduct` |
| pools, routes, dispatch to a quoting rule, last simulation before sending | `Pool`, `ProfitSimulator` |
| pool cache with its indexes, route search | `StateCache`, `RouteSearch`, `RouteSearchLaws` |
| client-side bundle builder and on-chain program | `InstructionData`, `BundleBuilder`, `ArbGuard`, `GuardLock` |
| nonce pool, fan-out to several relays, confirmation trackers | `NoncePool`, `NonceFanout`, `NonceFanoutLaws`, `Confirmation` |
| throttles, order-book tree walk | `Throttles`, `PhoenixBook` |

Code that loops over variables is a method with the same loop, proved equal to a recursive function; the objects that
change in place (cache, guard account, nonce pool, tracker, rate limiter, dedup maps) are classes whose methods are
proved to move an abstract value by a function. The laws are then proved about those functions, over all inputs and all
runs. Programs called on chain, relay answers, clocks, hash-set iteration order and the tick-to-price table are
arbitrary parameters.

## Where the code and its comments disagree

The model follows the code in each case.

- **The profit floor is not break-even.** The comments (`src/router/simulator.rs:207-212`, `src/main.rs:515-517`) call a
  minimum of `input_amount` break-even. The on-chain program reads the starting balance after the client has already
  wrapped the input into the same account (`src/executor/bundle.rs:155-165`, `programs/arb-guard/src/lib.rs:256-261`), so
  the last hop must pay `input + minimum`, twice the input: `ArbGuard.ProfitFloorExactly`,
  `ArbGuard.ProfitableSwapIsReverted`, `ArbGuard.RevertedExample`.
- **The amount is not always at offset 8.** The comment at `src/executor/bundle.rs:482-485` says so for Sanctum,
  Phoenix and Manifest. It is false of these and of PumpSwap buys: `InstructionData.RewriteCommutesExactlyFor`.
- **More input can quote less output.** In the walk over ticks an overflowing last swap is dropped without a trace
  (`src/router/dex/clmm_orca.rs:153-161`). A huge sale can then quote 0: `TickQuoteLaws.DroppedLastStep` exhibits it and
  `TickQuoteLaws.SellingMoreYieldsNoLessExactlyWhen` says exactly when. So can a purchase
  (`TickQuoteLaws.DroppedLastPurchase`), and far sooner: from a liquidity of 2^34 at up to half the highest price, what
  is left of a purchase after the cached ticks never buys anything (`TickQuoteLaws.DeepPoolsDropLastPurchase`). Besides,
  the two floors of one buying step can lose a unit (`TickQuoteLaws.BuyingMoreCanYieldLess`). Over a whole purchase,
  whatever ticks it crosses, the loss is at most `2^64 / price + 1` exactly when the last swap is not dropped or the
  smaller one's pays no more than that (`TickQuoteLaws.BuyingMoreYieldsHardlyLessExactlyWhen`); with the like proviso there is
  none once the two are apart (`TickQuoteLaws.BuyingMoreYieldsNoLessWhenApart`).
- **An index bucket is never corrected.** Updating a cached pool with a different pair of mints leaves it in the old
  buckets: `StateCache.UpsertAgreesExactlyWhen`.
- **"At most one bundle can land"** (`src/bin/cexdex.rs:713-714`) holds on a nonce. In the mode without nonces two
  relays can land the same opportunity and its profit is counted twice, exactly when there are two or more:
  `NonceFanoutLaws.CreditedTwiceExactlyWhen`.
- **The once-flag does not prevent every early release.** The comment at `src/bin/cexdex.rs:716-719` has in mind the
  other trackers of the same opportunity, which indeed do nothing. But after a counted collision the older
  opportunity's first tracker frees the nonce the newer one still holds (`NonceFanoutLaws.CollisionFreesHeldNonce`;
  `NonceFanoutLaws.FreeYetHeldExactlyWhen` says when), and even without one the first tracker to end frees the nonce
  while its siblings' bundles can still land (`NonceFanoutLaws.FirstTrackerFreesTooEarly`,
  `NonceFanoutLaws.SharedWithoutCollision`). Neither lets two bundles land: `NonceFanoutLaws.AtMostOneLanding`.
- **Profits from 2^63 up are lost** to the `i64` cast: `RouteSearchLaws.ProfitableExactlyWhen`.

Two ways to strand a nonce in flight look open but are dead code, and `NonceFanoutLaws.NeverStranded` shows no other.
The early exit after the checkout (`src/bin/cexdex.rs:700-706`) tests a number that `src/cexdex/simulator.rs:151` has
already found positive; the dispatch loop (`src/bin/cexdex.rs:722-725`) always finds the Jito relay, which is built with
its endpoint set (`src/executor/relays/jito.rs:26-29`) and always has a tip fraction (`src/cexdex/config.rs:171-188`).

## Model

| member | source | states |
|---|---|---|
| SwapStep.StepContained | src/router/dex/mod.rs:50-114 | the next price lies between current and target, the input taken is at most the input left, and all of it is taken whenever the target is not reached |
| SwapStep.MaxInRounding | src/router/dex/mod.rs:61-72 | the input charged for the whole range is never above the exact curve and below it by less than `Q/target + 1` (selling) or 1 (buying) |
| SwapStep.OutputRounding | src/router/dex/mod.rs:86-112 | the output is never above the exact curve for the price reached and below it by less than 1 (selling) or `Q/next + 1` (buying) |
| SwapStep.PartialPriceRounding | src/router/dex/mod.rs:76-83 | two-sided distance of the price after a partial fill from the exact curve, in both directions |
| SwapStep.PartialOverpayment | src/router/dex/mod.rs:74-89 | selling, a partial fill pays less than `L/Q` above the exact output for its input |
| SwapStep.PartialOverpaymentHappens | src/router/dex/mod.rs:74-89 | a concrete partial fill that does pay above the exact curve |
| SwapStep.StepsPart | src/router/dex/mod.rs:61-112 | of two steps from one state, the smaller uses its amount up or both make the very same swap |
| SwapStep.StepMonotone | src/router/dex/mod.rs:61-89 | selling, a larger input pays no less and leaves the price no higher; either the smaller one is used up or both make the same swap |
| SwapStep.BuyingPriceMonotone | src/router/dex/mod.rs:91-104 | buying, a larger input leaves the price no lower |
| SwapStep.BuyingStepNotMonotone | src/router/dex/mod.rs:91-112 | buying, a concrete pair of inputs where the larger pays less |
| SwapStep.BuyingStepNearlyMonotone | src/router/dex/mod.rs:91-112 | buying, the larger input pays at most `Q/next + 1` less, never more than that |
| SwapStep.BuyingStepMonotoneWhenApart | src/router/dex/mod.rs:91-112 | buying is monotone once the price difference times the liquidity covers the smaller run's price |
| SwapStep.AfterFeeExactly | src/router/dex/mod.rs:172-177 | the fee leaves the exact share rounded down, and only a fee above 100% is refused |
| SwapStep.SellingRefusedExactlyWhen | src/router/dex/mod.rs:50-114 | the exact overflows that refuse a sale toward a target |
| SwapStep.BuyingRefusedExactlyWhen | src/router/dex/mod.rs:50-114 | the exact overflows that refuse a purchase toward a target |
| SwapStep.SingleRangeIsStep | src/router/dex/mod.rs:163-235 | where a step toward some target succeeds and falls short of it, the one-range quote is what that step pays, or nothing if the price does not move or 64 bits are exceeded |
| SwapStep.SingleRangeRounding | src/router/dex/mod.rs:163-235 | whatever the steps toward any limit do, the one-range quote is what the curve pays for the move to the price the input buys, with both roundings bounded |
| SwapStep.SellingInRangeRefusedExactlyWhen | src/router/dex/mod.rs:183-205 | the one-range quote of a sale is refused exactly on one of four overflows or an input too small to move the price |
| SwapStep.BuyingInRangeRefusedExactlyWhen | src/router/dex/mod.rs:206-234 | the one-range quote of a purchase is refused exactly without price or liquidity, on one of three overflows or an input too small to move the price |
| TickWalk.MultiTickQuote | src/router/dex/clmm_orca.rs:42-168 | the loop, with its early exits and its dropped last step, computes the function the laws are about |
| TickProfile.PathIsComplete | src/router/dex/clmm_orca.rs:68-82 | for distinct ticks the path is strictly ordered and holds exactly the initialized ticks on the side the price moves to |
| TickProfile.NextTickIsNext | src/router/dex/clmm_orca.rs:68-93 | for distinct ticks, the tick visited next is the one initialized tick between where the walk's liquidity counts from and where it counts from after the visit |
| TickProfile.LiquidityTracksProfile | src/router/dex/clmm_orca.rs:87-143 | for distinct ticks with 127-bit prefix sums and liquidity that of the current tick, at any price and tick-to-price table: before every iteration the liquidity carried with input left is the net liquidity of the ticks up to the one just crossed, so no i128 or u128 cast wraps and no crossing fails; a walk that gives up does so on an overflowing swap of one of its 50 iterations |
| TickProfile.WalkStandsOnTick | src/router/dex/clmm_orca.rs:87-143 | after the first tick a walk with input left stands exactly on the tick it visited last, also from a pool resting on a tick |
| TickProfile.LiquidityIsPriceProfile | src/router/dex/clmm_orca.rs:87-143 | read in prices, before every iteration: that liquidity is the sum of net liquidity over the ticks on the near side of the current price, up to the first tick if the pool rests exactly on it and it is yet to be crossed |
| TickProfile.OnePositionIsWellFormed | src/router/dex/clmm_orca.rs:93-107 | the assumptions hold of a pool with one position at every current tick and every price up to the next tick, both ends included |
| TickProfile.CrossIsExact | src/router/dex/clmm_orca.rs:94-107 | a crossing between 127-bit liquidities is exact integer addition or subtraction |
| TickProfile.CrossExactly | src/router/dex/clmm_orca.rs:93-107 | for any liquidity and net liquidity: what a crossing makes of the two's-complement reading, and that it fails exactly when the i128 sum overflows |
| TickProfile.RefusedExactlyWhen | src/router/dex/clmm_orca.rs:42-168 | a pool whose liquidity is that of its current tick refuses a quote if and only if the fee exceeds 100%, one of the first 50 swaps overflows, or the total exceeds 64 bits |
| TickWalkLaws.WalkIsSound | src/router/dex/clmm_orca.rs:87-143 | at every iteration and for any ticks: consumed plus remaining input is the after-fee input, the output is the exact sum of the swaps' outputs with no u128 wrap, the price is in bounds and has moved only in the swap direction, at most 50 swaps |
| TickWalkLaws.PriceMovesOneWay | src/router/dex/clmm_orca.rs:87-143 | between any two iterations the price moves only in the swap direction |
| TickWalkLaws.OneSwapOutputBound | src/router/dex/mod.rs:86-112 | from a price of at least the minimum one swap pays less than 2^96 |
| TickQuoteLaws.WalksPart | src/router/dex/clmm_orca.rs:87-143 | two trades of different size, in either direction, go in step until one iteration where the smaller is used up; afterwards the smaller stands still and the larger only adds output |
| TickQuoteLaws.SalesCompare | src/router/dex/clmm_orca.rs:87-143 | two sales of different size are at every iteration either in step or the smaller is used up with no more output |
| TickQuoteLaws.PurchasesCompare | src/router/dex/clmm_orca.rs:87-143 | two purchases of different size are at every iteration either in step or the smaller is used up with at most `Q/price + 1` more output |
| TickQuoteLaws.SellingMoreYieldsNoLessExactlyWhen | src/router/dex/clmm_orca.rs:42-168 | the larger sale quotes no less if and only if its last swap does not overflow or the smaller sale's last range pays nothing, whatever ticks either crosses and also at the 50-tick cap |
| TickQuoteLaws.BuyingMoreYieldsHardlyLessExactlyWhen | src/router/dex/clmm_orca.rs:42-168 | a larger purchase quotes at most `Q/price + 1` less if and only if its last swap does not overflow or the smaller purchase's last range pays at most that, whatever ticks either crosses |
| TickQuoteLaws.BuyingMoreYieldsNoLessWhenApart | src/router/dex/clmm_orca.rs:42-168 | when, in the one range where the smaller purchase is used up, the price difference times the liquidity covers the smaller one's price: the larger quotes no less if and only if its last swap does not overflow or the smaller purchase's last range pays nothing |
| TickQuoteLaws.QuoteIsSumOfSwaps | src/router/dex/clmm_orca.rs:42-168 | a quote is exactly what the swaps on the way paid plus, with input and liquidity left, what the last swap to the price limit pays if it does not overflow |
| TickQuoteLaws.LastPurchaseIsDropped | src/router/dex/mod.rs:91-95 | the last range of a purchase pays nothing whenever the liquidity times the way to the highest price exceeds 128 bits |
| TickQuoteLaws.DeepPoolsDropLastPurchase | src/router/dex/clmm_orca.rs:145-162 | so it does from a liquidity of 2^34 at up to half the highest price, whatever input is left |
| TickQuoteLaws.DroppedLastPurchase | src/router/dex/clmm_orca.rs:16-35 | a pool, with tick arrays cached, for which the engine quotes a purchase of 1 at over 2^61 and one of 2^34 at 0, outside the bound |
| TickQuoteLaws.DroppedLastStep | src/router/dex/clmm_orca.rs:16-35 | a pool at the highest price, with tick arrays cached, for which the engine quotes a larger sale at a silent 0 |
| TickQuoteLaws.BuyingMoreCanYieldLess | src/router/dex/clmm_orca.rs:16-35 | a pool, with tick arrays cached, for which the engine quotes a larger purchase at less |
| TickWalkLaws.EmptyPathIsSingleRange | src/router/dex/mod.rs:163-235 | with no initialized tick ahead and a last step short of the limit, multi-tick and single-tick quotes agree if and only if the price moves; otherwise they say 0 and nothing |
| FloorDivision.FloorDivIsFloor | src/executor/swaps/mod.rs:46-52 | the helper is mathematical floor for every dividend and nonzero divisor |
| FloorDivision.ShiftedDivIsFloor | src/router/dex/dlmm.rs:85-90 | shifting a negative bin id before truncating is mathematical floor |
| FloorDivision.SteppedDivIsFloor | src/executor/swaps/meteora_dlmm.rs:69-73 | stepping down after truncating is mathematical floor |
| FloorDivision.ArrayStartIsFloor | src/mempool/stream.rs:626-631 | the start of a tick array is the largest multiple not above the tick |
| FloorDivision.FloorIdiomsAgree | src/executor/swaps/mod.rs:46-52 | the ways of writing floor division agree |
| Machine.CeilDivBounds | src/router/dex/mod.rs:20-25 | the ceiling is the least multiplier reaching the dividend |
| BinWalk.BinQuote | src/router/dex/dlmm.rs:51-187 | the loop computes the function the laws are about, every unchecked product and sum staying inside u128; what it computes is stated by the `BinWalkLaws` rows |
| BinWalk.MaxInBounds | src/router/dex/dlmm.rs:115-117 | the input that empties a bin is positive and is the exact price of its holdings rounded up |
| BinWalk.PartialOutBounds | src/router/dex/dlmm.rs:141-146 | a partial fill pays the bin's price rounded down and never more than the bin holds |
| BinWalk.ConsumedFits | src/router/dex/dlmm.rs:130-139 | emptying a bin never charges more than the input left, so the saturating subtraction is exact |
| BinWalkLaws.FillIsFair | src/router/dex/dlmm.rs:110-147 | one fill pays at most what the bin holds, at no better than its price, and charges at least the pool's fee rate |
| BinWalkLaws.FindBinExactly | src/router/dex/dlmm.rs:85-102 | a bin is found for an id if and only if it stands at position `j < 70` of an array with `index * 70 + j == id` and no earlier array has that index |
| BinWalkLaws.FillIsExact | src/router/dex/dlmm.rs:110-180 | a fill empties the bin exactly when the after-fee input left reaches the price of its holdings, and then charges that price with its fee, both rounded up; otherwise it takes all the input and pays the after-fee part at the price, rounded down |
| BinWalkLaws.WalkIsThorough | src/router/dex/dlmm.rs:79-181 | every id between the active one and where the walk stands was held by a bin with a price, and either paid or had nothing to pay; a walk that stops early ran out of input or of bins, or met one without a price |
| BinWalkLaws.VisitRefusedExactlyWhen | src/router/dex/dlmm.rs:110-147 | a visit is refused if and only if the bin holds something and its rounded-up price or fee product exceeds 128 bits |
| BinWalkLaws.WalkLostExactlyWhen | src/router/dex/dlmm.rs:79-181 | a walk is refused if and only if some iteration before meets such a bin with input left |
| BinWalkLaws.QuoteRefusedExactlyWhen | src/router/dex/dlmm.rs:51-187 | no quote is given if and only if the input is positive and the fee is 100% or more, some visited bin overflows, or the bins paid more than 64 bits hold |
| BinWalkLaws.WalkIsSound | src/router/dex/dlmm.rs:79-181 | at every iteration input is what the bins took plus what is left, output is exactly what they paid, no bin is visited twice, and every fill is fair for the bin its id denotes |
| BinWalkLaws.QuoteIsBacked | src/router/dex/dlmm.rs:51-187 | a quote is the sum of what distinct bins paid, at most what they hold, for at most the input; each fill is, of the bin of that id, all its holdings or the partial payment with the exact fee; and no bin with something to pay is passed over before the walk ends |
| BinWalkLaws.AfterFeeMonotone | src/router/dex/dlmm.rs:119-128 | the input left after a ceiling fee grows with the input at every fee, also above 50% |
| BinWalkLaws.LargerInputYieldsNoLess | src/router/dex/dlmm.rs:51-187 | whenever both quotes answer, a larger input yields no less, in both directions and at every fee |
| ConstantProduct.KeepsProduct | src/router/dex/cpmm.rs:9-38 | the output is below the reserve and the product of reserves never falls |
| ConstantProduct.QuoteIsGreatest | src/router/dex/cpmm.rs:22-33 | one more unit of output would make the after-fee product fall: the quote is the largest fair one |
| ConstantProduct.RefusedExactlyWhen | src/router/dex/cpmm.rs:9-38 | a quote is refused if and only if a reserve is empty, the fee exceeds 100% or the numerator exceeds 128 bits |
| ConstantProduct.QuoteMonotone | src/router/dex/cpmm.rs:9-38 | a larger input yields no less |
| ConstantProduct.RoundTripLoses | src/router/dex/cpmm.rs:9-38 | swapping there and straight back never gains |
| ConstantProduct.ChainBound | src/router/simulator.rs:110-159 | a chain of constant-product pools pays strictly less than the product of its spot prices |
| ConstantProduct.NoFalseArbitrage | src/router/simulator.rs:110-159 | around a cycle whose spot prices multiply to at most 1 every input comes back smaller |
| Pool.BinPoolQuotes | src/router/pool.rs:159-184 | a bin pool quotes by its bins at its active id when cached and answered, otherwise by its reserves |
| Pool.ConcentratedPoolQuotes | src/router/pool.rs:159-184 | a concentrated pool quotes over its ticks, or in one range without them, and by its reserves when that gives nothing |
| Pool.ReservePoolQuotes | src/router/pool.rs:159-184 | the other pools quote by their reserves, on the side the input enters; no input quotes 0 |
| ProfitSimulator.Simulate | src/router/simulator.rs:90-235 | the verdict is profitable if and only if every hop quotes and the gates admit the gross profit; for rates in [0, 1] tip plus profit is the gross profit less the slippage rounded down, and the tip the larger of its fraction rounded down and of the static and polled floors; only the estimates of the route are replaced |
| ProfitSimulator.SplitsExactlyWhen | src/router/simulator.rs:78-200 | for rates in [0, 1]: a tip and a rest meet those floor bounds if and only if they are the ones planned |
| ProfitSimulator.AdmitsExactlyWhen | src/router/simulator.rs:160-205 | for rates in [0, 1]: a gross profit is admitted if and only if it is positive, at most 10 SOL, and splits into a tip and a positive rest of at least the minimum |
| ProfitSimulator.SlippageExtremes | src/router/simulator.rs:176-190 | without slippage the whole gross profit is planned; at slippage 1 nothing is admitted |
| ProfitSimulator.HopOutputsIsPaidAlong | src/router/simulator.rs:110-159 | the amounts along a route are the forward fold: each pool is given what the one before paid, in the direction of its input mint, and the fold answers exactly when every pool is cached and quotes |
| ProfitSimulator.SimulatorFoldsChain | src/router/simulator.rs:110-159 | through constant-product pools the simulator's fold is the chain of quotes |
| ProfitSimulator.FairCycleIsNeverSent | src/router/simulator.rs:90-205 | around a cycle priced at most 1 nothing is ever admitted, at any input and settings |
| StateCache.Cache.Upsert | src/state/cache.rs:79-115 | the update of the map and both indexes is the specified one; what the entries then are is `StateCache.EntryIsLastWritten` |
| StateCache.Cache.EvictStale | src/state/cache.rs:212-252 | removing stale pools one at a time in any order is the specified simultaneous removal |
| StateCache.Cache.RemoveToken | src/state/cache.rs:230-238 | one removal from a token bucket, the bucket going when it empties |
| StateCache.Cache.RemovePair | src/state/cache.rs:240-249 | one removal from a pair bucket, the bucket going when it empties |
| StateCache.EntryIsLastWritten | src/state/cache.rs:79-252 | over any run of upserts and evictions a pool has an entry if and only if an upsert of it was not followed by another or by an eviction 600 seconds or more after it, and the entry is that upsert's state and time; so no operation touches another pool's entry |
| StateCache.LookupIsLastWritten | src/state/cache.rs:133-138 | over any run `get_any` answers a state if and only if the last upsert of that pool wrote it and no eviction has dropped it since |
| StateCache.Cache.GetAny | src/state/cache.rs:133-138 | answers the state in the map, stale or not |
| StateCache.UpsertAgreesExactlyWhen | src/state/cache.rs:79-115 | an upsert keeps indexes and scan in agreement if and only if the pool is new or keeps its pair of mints |
| StateCache.EvictAgrees | src/state/cache.rs:212-252 | eviction keeps indexes and scan in agreement, without duplicates or empty buckets |
| StateCache.RunAgreesExactlyWhen | src/state/cache.rs:79-252 | throughout a run of upserts and evictions both lookups return exactly what a scan finds, duplicate-free and without empty buckets, if and only if every upsert is of an address not cached at the time or cached with the same pair of mints |
| StateCache.PairLookupSymmetric | src/state/cache.rs:150-156 | the pools of a pair do not depend on the order of the mints |
| StateCache.TradesIsPairKey | src/state/cache.rs:24-30 | normalized pairs are equal exactly when the pools trade the same two mints |
| RouteSearch.FindRoutesForBase | src/router/calculator.rs:33-48 | the result is sorted by profit and is a permutation of the first five profitable candidates in search order; what each route holds is `RouteSearchLaws.EveryRouteIsReal` |
| RouteSearch.Find2HopRoutes | src/router/calculator.rs:57-114 | the nested loops with their early exits keep the first five of all two-hop candidates; what a candidate holds is `RouteSearchLaws.Simulate2IsQuoted` |
| RouteSearch.Find3HopRoutes | src/router/calculator.rs:118-200 | the nested loops with their early exits extend the routes found to the first five of all candidates |
| RouteSearch.StopEarly | src/router/calculator.rs:106-108 | once five routes are held the rest of the search could not change them |
| RouteSearch.SortSorts | src/router/calculator.rs:46-46 | sorting by profit sorts and permutes |
| RouteSearchLaws.CandidatesAreBruteForce | src/router/calculator.rs:57-200 | the search through the indexes enumerates exactly the routes a brute-force scan of the cache describes within the 20-pool caps, each hop naming its own pool, exchange, mints and output |
| RouteSearchLaws.Simulate2IsQuoted | src/router/calculator.rs:203-261 | a two-hop candidate is found profitable if and only if it is the route through the two pools with each hop's pool, exchange, mints and the amount paid along, and a gain between 1 and 2^63 - 1 |
| RouteSearchLaws.Simulate3IsQuoted | src/router/calculator.rs:264-326 | the same of a three-hop candidate |
| RouteSearchLaws.CapKeepsFirstTwenty | src/router/calculator.rs:67-67 | the cap keeps the first 20 pools of a token, or all when there are fewer |
| RouteSearchLaws.SearchRefinesBruteForce | src/router/calculator.rs:33-200 | at most five routes, all of them brute-force candidates, and every candidate there is when fewer than five are returned |
| RouteSearchLaws.ProfitableExactlyWhen | src/router/calculator.rs:248-256 | with an input of at most 2^63 the i64 profit is positive if and only if the output exceeds the input by less than 2^63 |
| RouteSearchLaws.OptimalInputIsSmall | src/router/calculator.rs:329-349 | the test amount is the largest within one percent of either pool's base reserve, but at least 10000, and stays far below 2^63 |
| RouteSearchLaws.EveryRouteIsReal | src/router/calculator.rs:33-326 | every returned route is circular, linked, of distinct pools trading its mints, every hop marked with the exchange of its own pool, and the simulator finds the very same profit on the same cache |
| InstructionData.Le64RoundTrip | programs/arb-guard/src/lib.rs:286-286 | eight little-endian bytes read back as the number written |
| InstructionData.DataAsks | src/executor/swaps/sanctum.rs:32-59 | of every layout, this one and those of the other builders beside it: the amount and the minimum read back from the data built, at the layout's fields, are those given |
| InstructionData.DataIsMarked | src/executor/swaps/orca.rs:70-97 | of every layout, this one and those of the other builders beside it: the length, the leading marker, the price limit and the bytes that tell the direction |
| InstructionData.RewriteReadsBack | programs/arb-guard/src/lib.rs:281-288 | after the overwrite the called program reads the amount and every other byte is untouched |
| InstructionData.RewriteGivesRebuilt | src/executor/bundle.rs:482-489 | for the seven layouts with the amount at the offset, overwriting gives the data built for the new amount |
| InstructionData.RewriteMisses | src/executor/swaps/sanctum.rs:32-59 | for Sanctum, Manifest, Phoenix and PumpSwap buys, concrete amounts where it does not |
| InstructionData.RewriteCommutesExactlyFor | src/executor/bundle.rs:482-489 | rewriting commutes with building if and only if the layout is one of the seven |
| InstructionData.PumpBuyMisses | src/executor/swaps/pumpswap.rs:56-128 | the concrete bytes that differ for a PumpSwap buy |
| InstructionData.SanctumMisses | src/executor/swaps/sanctum.rs:52-59 | the concrete bytes that differ for Sanctum |
| InstructionData.ManifestMisses | src/executor/swaps/manifest.rs:37-53 | the concrete bytes that differ for Manifest |
| InstructionData.PhoenixMisses | src/executor/swaps/phoenix.rs:39-64 | the concrete bytes that differ for Phoenix |
| ArbGuard.ExecuteHop | programs/arb-guard/src/lib.rs:266-318 | one pass of the loop, with every error and its order, is the measured call of that hop |
| ArbGuard.ExecuteArbV2 | programs/arb-guard/src/lib.rs:242-332 | the interpreter loop, with every error and its order, computes the function the laws are about |
| ArbGuard.HopSucceedsExactlyWhen | programs/arb-guard/src/lib.rs:266-318 | a hop succeeds, with a given world and amount, if and only if its indices are in bounds, the called program succeeds on the described call, and the output account is readable before and after and grew by that amount |
| ArbGuard.HopFailsWith | programs/arb-guard/src/lib.rs:266-318 | which error a failing hop reports |
| ArbGuard.ExecuteSucceedsExactlyWhen | programs/arb-guard/src/lib.rs:242-332 | the instruction succeeds if and only if the payer signs, the profit account is readable, every hop in turn succeeds on what the one before really paid, and the floor is met |
| ArbGuard.ExecuteFailsWith | programs/arb-guard/src/lib.rs:242-332 | which error a failing instruction reports: the first failing check before the hops, or the first failing hop |
| ArbGuard.SuccessMakesEveryHopHonest | programs/arb-guard/src/lib.rs:264-321 | whatever the called programs do, after success every hop was called as described, its output account strictly grew, and each later hop reads exactly the measured output of the one before |
| ArbGuard.SuccessKeepsProfitFloor | programs/arb-guard/src/lib.rs:256-331 | after success the profit account holds at least its start plus the minimum |
| ArbGuard.ProfitFloorExactly | programs/arb-guard/src/lib.rs:256-331 | if only the first hop debits the profit account by the input and only the last credits it, the instruction succeeds if and only if the last output is at least input plus minimum |
| ArbGuard.ProfitableSwapIsReverted | src/executor/bundle.rs:155-168 | with the client's minimum, a gain of less than the input is reverted |
| ArbGuard.RevertedExample | programs/arb-guard/src/lib.rs:323-331 | a concrete two-hop chain that returns 150 for 100 and is reverted |
| GuardLock.GuardState.Start | programs/arb-guard/src/lib.rs:63-72 | pins balance, authority and account and locks, or fails with the right error and no effect |
| GuardLock.GuardState.Check | programs/arb-guard/src/lib.rs:78-96 | unlocks above the threshold, or fails with the right error and no effect |
| GuardLock.ProfitCheckAnswersStartCheck | programs/arb-guard/src/lib.rs:63-96 | in any run of calls every accepted profit check answers the last accepted call, a start check on the same account, and sees that balance plus the minimum |
| GuardLock.AcceptedCallsAlternate | programs/arb-guard/src/lib.rs:63-96 | accepted start and profit checks take turns |
| GuardLock.AcceptedExactlyWhen | programs/arb-guard/src/lib.rs:63-96 | over any run from an unlocked guard: a call is accepted if and only if it is an owner's start check with no check open, or answers the start check last accepted, by the same authority on the same account with balance plus minimum reached |
| GuardLock.ProfitCheckFailsWith | programs/arb-guard/src/lib.rs:78-96 | which error a refused profit check reports |
| BundleBuilder.BuildSwaps | src/executor/bundle.rs:427-439 | each hop's data asks its exchange for the input or the estimate of the hop before; read back at the layout's minimum field, the last hop carries `min_amount_out` and every earlier one 0 |
| BundleBuilder.BuildExecuteArbV2 | src/executor/bundle.rs:417-518 | the builder answers exactly when every output account is listed, and gives the flattened bundle; read back from the bundle's data, only the last hop carries the minimum |
| BundleBuilder.BuiltBundleAsks | src/executor/bundle.rs:427-518 | the slice of data the bundle gives each hop asks for its amount, with the minimum on the last hop and 0 before |
| BundleBuilder.ExecutedCallAsks | programs/arb-guard/src/lib.rs:281-309 | with the amount at its offset, the call the program makes for a hop asks for what the hop before really paid, with the minimum on the last hop and 0 before |
| BundleBuilder.IndicesSurviveExactlyWhen | src/executor/bundle.rs:454-479 | the u8 indices of a hop denote the positions meant if and only if those are below 256 |
| BundleBuilder.TenHopsFit | src/executor/bundle.rs:446-479 | up to ten hops of any exchanges every index fits |
| BundleBuilder.ElevenHopsFitExactlyWhen | src/executor/bundle.rs:446-479 | with eleven hops every index fits if and only if the last output account is found below 256 |
| BundleBuilder.ElevenHopsFitWhenListedEarlier | src/executor/bundle.rs:463-479 | it is, when any earlier hop lists that account |
| BundleBuilder.EleventhOutputIsMisread | src/executor/bundle.rs:463-479 | with eleven of the largest hops and the last output account listed first as the eleventh hop's fifth account, where that builder puts it, its index is 256 and is sent as 0, the signer |
| BundleBuilder.TwelfthHopIsMisread | src/executor/bundle.rs:454-461 | with twelve of the largest hops the last program index wraps |
| BundleBuilder.HopIsSlicedBack | programs/arb-guard/src/lib.rs:266-309 | the program slices back exactly the hop's program, accounts and output account |
| BundleBuilder.ExecutionRefinesSwaps | programs/arb-guard/src/lib.rs:242-332 | executing the bundle is the client's swap sequence with only later amounts rewritten, under any behaviour of the called programs |
| BundleBuilder.ExecutionRefinesRebuiltSwaps | src/executor/bundle.rs:417-518 | with amounts at their offset, executing the bundle is the sequence the client would build knowing every output in advance |
| NoncePool.BestIsLeast | src/cexdex/nonce.rs:85-112 | the selection answers if and only if some nonce is cached, with the least by (in flight, last used, position) |
| NoncePool.CollisionOnlyWhenAllInFlight | src/cexdex/nonce.rs:96-117 | an in-flight nonce is handed out only if every cached nonce is in flight |
| NoncePool.NobodyIsSkipped | src/cexdex/nonce.rs:85-140 | between two checkouts of one nonce every other nonce cached and free at the second was checked out, over any run |
| NoncePool.CachedHashIsLastHeard | src/cexdex/nonce.rs:144-151 | over any run of checkouts, settles and updates a nonce's cached hash, which a checkout hands out, is the last one heard of it, or the first one if none was |
| NoncePool.Pool.constructor | src/cexdex/nonce.rs:60-70 | every configured nonce starts free, uncached and equally old |
| NoncePool.Pool.Checkout | src/cexdex/nonce.rs:85-130 | hands out the least nonce with its hash, stamps and marks only that one, counts a collision |
| NoncePool.Pool.Settle | src/cexdex/nonce.rs:134-140 | clears only the in-flight mark of a known nonce |
| NoncePool.Pool.UpdateCachedHash | src/cexdex/nonce.rs:144-151 | replaces only the hash of a known nonce |
| Confirmation.Tracker.Run | src/executor/confirmation.rs:48-219 | the task ends within four polls with the specified verdict and fires `on_landed` only when confirmed, then `on_settle` exactly once |
| Confirmation.VerdictFrom | src/executor/confirmation.rs:110-218 | every verdict is explained by the reply and time of one last poll after only undecided ones |
| Confirmation.ConfirmedExactlyWhen | src/executor/confirmation.rs:67-218 | confirmed if and only if some poll before the deadline answers landed after only undecided polls without two errors in a row |
| Confirmation.SomeIdExactlyWhen | src/executor/confirmation.rs:79-96 | there is something to poll for if and only if some relay succeeded with a non-empty bundle id |
| Confirmation.SettlesOnceAndLast | src/executor/confirmation.rs:96-219 | the settle callback fires exactly once and last, the landed callback once exactly when confirmed |
| NonceFanout.StepKeepsLandings | src/executor/relays/common.rs:216-233 | every step keeps: the nonce and hash of a landed bundle is spent, and no two landed bundles share one |
| NonceFanoutLaws.StepKeepsOpportunities | src/bin/cexdex.rs:716-800 | every step keeps: the once-flag is set exactly when a tracker has ended, credits count confirmed trackers, and each of these landed |
| NonceFanoutLaws.AtMostOneLanding | src/executor/relays/common.rs:216-233 | over every interleaving at most one bundle built on a nonce account and hash lands, also across colliding opportunities |
| NonceFanoutLaws.CreditedAtMostOnce | src/bin/cexdex.rs:759-766 | over every interleaving profit is credited at most once per opportunity on a nonce, or with a single relay |
| NonceFanoutLaws.CreditsAreLandings | src/bin/cexdex.rs:716-780 | a credit stands for a landing, and the nonce is settled exactly once, when the first tracker ends |
| NonceFanoutLaws.WithoutNonceCreditedTwice | src/bin/cexdex.rs:659-800 | for any two or more relays without a nonce, a run that credits one opportunity twice |
| NonceFanoutLaws.CreditedTwiceExactlyWhen | src/bin/cexdex.rs:659-800 | some run credits an opportunity twice if and only if it has no nonce and goes to two relays or more |
| NonceFanoutLaws.InFlightIsHeld | src/bin/cexdex.rs:716-780 | over every run without an aborted checkout a nonce in flight is held by an unsettled opportunity, collisions or not; until a collision it is in flight exactly while held, and by one, so a late tracker frees nobody else's nonce |
| NonceFanoutLaws.StrandedExactlyWhen | src/bin/cexdex.rs:700-800 | after any step a nonce is stranded if and only if it was checked out with nothing sent and nobody left to settle it, or not checked out and stranded before |
| NonceFanout.SomeRelayIsDispatchedTo | src/bin/cexdex.rs:722-725 | the loop over the tipped relays always sends to Jito, and to one more exactly with an Astralane key |
| NonceFanoutLaws.NeverStranded | src/bin/cexdex.rs:716-800 | over every run of steps the code takes no nonce is ever stranded in flight, collisions or not |
| NonceFanoutLaws.FreeYetHeldExactlyWhen | src/bin/cexdex.rs:768-779 | a step leaves a nonce free though an unsettled opportunity holds it if and only if it settles one of two holders, or it was so before and the nonce is not checked out |
| NonceFanoutLaws.FreeYetHeldOnlyAfterCollision | src/bin/cexdex.rs:716-780 | over every run of the code that takes a counted collision |
| NonceFanoutLaws.CollisionFreesHeldNonce | src/bin/cexdex.rs:768-779 | a run in which a collision leads to it |
| NonceFanoutLaws.FirstTrackerFreesTooEarly | src/bin/cexdex.rs:768-779 | the first tracker of an opportunity to end frees its nonce while exactly the other trackers are open, each of their bundles able to land exactly if it was before |
| NonceFanoutLaws.SharedWithoutCollision | src/bin/cexdex.rs:659-800 | a run without a counted collision in which two opportunities share a nonce and hash and a bundle of each can land |
| Throttles.RateLimiter.Check | src/executor/relays/common.rs:147-160 | grants exactly when the interval has passed and stamps only then |
| Throttles.GrantedExactlyWhen | src/executor/relays/common.rs:147-160 | on a monotone clock a call is granted if and only if it comes the interval after the start and after every grant so far |
| Throttles.FirstCallGranted | src/executor/relays/common.rs:140-160 | the start being a minute back, the first call is granted at any interval of up to a minute |
| Throttles.GrantsAreSpaced | src/executor/relays/common.rs:147-160 | over any run grants are pairwise at least the interval apart |
| Throttles.GrantsPerWindow | src/executor/relays/common.rs:147-160 | at most `W / interval + 1` grants in any window of length `W` |
| Throttles.ArbDedup.Admit | src/main.rs:492-505 | admission and the new map are the specified ones |
| Throttles.RefusedExactlyWhen | src/main.rs:492-505 | over any run a submission is refused if and only if the last five admissions of its route share one entry, begun less than two seconds before |
| Throttles.AdmissionsAreGrouped | src/main.rs:492-505 | admissions of a route come in groups of at most five, each inside its window and the groups a window apart |
| Throttles.NinePerWindow | src/main.rs:492-505 | at most nine admissions of a route in any half-open window of two seconds |
| Throttles.NineAreAdmitted | src/main.rs:492-505 | a concrete run that reaches nine |
| Throttles.PoolDedup.Process | src/main.rs:319-329 | skipping and the new map with its eviction are the specified ones |
| Throttles.NoPoolTwiceInASlot | src/main.rs:319-329 | with slots that never fall no (pool, slot) is processed twice, across evictions |
| Throttles.ProcessedExactlyWhen | src/main.rs:319-329 | a change is processed if and only if it has not come up before, or since it last did its pool appeared at another slot or an eviction dropped its entry |
| Throttles.ProcessedTwiceWhenSlotsFall | src/main.rs:319-329 | a concrete run with falling slots where one is |
| PhoenixBook.PhoenixTreeBest | src/mempool/parsers/phoenix.rs:21-69 | the bounded loop over arbitrary bytes computes the recursive walk |
| PhoenixBook.LeftwardFinds | src/mempool/parsers/phoenix.rs:38-66 | on bytes encoding a tree the walk finds the leftmost node if and only if it is within the step bound |
| PhoenixBook.TreeBestIsFirst | src/mempool/parsers/phoenix.rs:21-69 | on bytes encoding a search tree the result is the price and depth of the first of all orders; nothing is reported if and only if the tree is empty or its left spine exceeds 1000 |
| PhoenixBook.RedBlackBounds | src/mempool/parsers/phoenix.rs:4-20 | a red-black tree with `b` black nodes on every way down has a left spine of at most `2b + 1` and at least `2^b - 1` nodes |
| PhoenixBook.RedBlackBookAnswers | src/mempool/parsers/phoenix.rs:21-69 | on bytes encoding a red-black search tree of 32-bit indices the left spine is at most 65, so the step bound is never reached and the walk answers with the first order, or with nothing exactly for an empty book |

## Left out

- TickQuoteLaws.BuyingMoreYieldsNoLessWhenApart: between two purchases that are not apart, which pays more turns on the remainders of two divisions; there only the bound of `TickQuoteLaws.BuyingMoreYieldsHardlyLessExactlyWhen` is stated.
- TickWalk.MultiTickQuote: the floating-point conversion from a tick to a price is an arbitrary table; the laws that speak of prices ask that it increases and stays between the price limits, the one on liquidity asks nothing of it. The Raydium file repeats the Orca walk and is covered by the same model.
- BinWalk.BinQuote: bin ids are unbounded integers; the i32 id is assumed not to wrap within the 200 steps.
- ProfitSimulator.Simulate: slippage and tip fractions are exact real numbers, not 64-bit floats; the competitor and logging side effects are not modelled.
- RouteSearchLaws.SearchRefinesBruteForce: completeness is within the caps of 20 pools a token, under an arbitrary but fixed iteration order of the hash set.
- BundleBuilder.ExecutionRefinesSwaps: account lists are what the swap builders deliver; how each builder chooses its accounts is not modelled, only how many there are at most.
- BundleBuilder.BuildExecuteArbV2: the error of a failing swap builder and of a missing guard program id, and the Borsh serialization of the parameters, are not modelled.
- NonceFanout.StepKeepsLandings: the chain accepts a bundle on a nonce only while its hash is current, which is the rule of durable nonces; a bundle without a nonce lands at most once per signature. Blockhash expiry is not modelled.
- Confirmation.Tracker.Run: collecting results is one step over those received before the collection deadline; parsing of relay answers and the fallback between status sources are one abstract reply per poll.
- StateCache.Cache.Upsert: each operation is one atomic step; interleavings inside a concurrent map are not modelled.
- NoncePool.Pool.Checkout: one caller at a time, as its documentation demands; the in-flight gauge is not modelled.
- The older `execute_arb` instruction: one fixed pair of exchanges, replaced by the hop interpreter.
- Quoting rules of DAMM v2, Sanctum, Phoenix and Manifest: one abstract function in `Pool.Market`; they have no loop.
- Detector pricing, inventory, tip conversion and the price feed: floating point.
- Signing, message compilation, address derivation, address lookup tables and transaction size limits: library code; merging of account privileges is modelled.
- Streaming, HTTP, configuration, metrics and logging: input and output.
- The bundle path without the on-chain guard and the check whether a route can be submitted: lists of instructions without decisions.
- The trigger pool argument of the route search: the code does not read it.
