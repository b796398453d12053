/** Pools, routes, and the dispatch from a pool to its quoting rule. */
module Pool {
  import opened Address
  import opened Machine
  import BinWalk
  import ConstantProduct
  import SwapStep
  import TickWalk

  datatype DexType = RaydiumAmm | RaydiumClmm | RaydiumCp | OrcaWhirlpool | MeteoraDlmm | MeteoraDammV2
                   | SanctumInfinity | Phoenix | Manifest | PumpSwap

  datatype PoolState = PoolState(address: Key, dexType: DexType, mintA: Key, mintB: Key, reserveA: u64, reserveB: u64,
                                 feeBps: u64, currentTick: Option<int>, sqrtPrice: Option<u128>, liquidity: Option<u128>)
  {
    function OtherToken(mint: Key): Option<Key> {
      if mintA == mint then Some(mintB) else if mintB == mint then Some(mintA) else None
    }

    function IsAToB(inputMint: Key): Option<bool> {
      if mintA == inputMint then Some(true) else if mintB == inputMint then Some(false) else None
    }
  }

  datatype RouteHop = RouteHop(pool: Key, dexType: DexType, inputMint: Key, outputMint: Key, estimatedOutput: u64)

  datatype ArbRoute = ArbRoute(hops: seq<RouteHop>, baseMint: Key, inputAmount: u64,
                               estimatedProfit: int, estimatedProfitLamports: u64)
  {
    predicate IsProfitable() {
      estimatedProfit > 0
    }

    predicate IsCircular() {
      hops != [] && hops[0].inputMint == hops[|hops| - 1].outputMint == baseMint
    }

    /** Each hop spends what the one before it bought. */
    ghost predicate IsLinked() {
      forall i :: 0 <= i < |hops| - 1 ==> hops[i].outputMint == hops[i + 1].inputMint
    }

    ghost predicate HasDistinctPools() {
      forall i, j :: 0 <= i < j < |hops| ==> hops[i].pool != hops[j].pool
    }
  }

  /** What quoting reads besides the pool itself: the tick-to-price table, the cached bins and ticks, and the rules
      of the order-book and staking venues, which are left abstract. */
  datatype Market = Market(sqrtAt: TickWalk.PriceTable, bins: map<Key, seq<BinWalk.BinArray>>,
                           ticks: map<Key, seq<TickWalk.TickArray>>, otherVenue: (PoolState, u64, bool) -> Option<u64>)

  function OrElse(first: Option<u64>, second: Option<u64>): Option<u64> {
    if first.Some? then first else second
  }

  function DlmmQuote(market: Market, pool: PoolState, input: u64, aToB: bool): Option<u64> {
    var activeId :- pool.currentTick;
    if pool.address !in market.bins || market.bins[pool.address] == [] then None
    else BinWalk.BinOutput(market.bins[pool.address], pool.feeBps, activeId, input, aToB)
  }

  function ClmmQuote(market: Market, pool: PoolState, input: u64, aToB: bool): Option<u64> {
    var price :- pool.sqrtPrice;
    var liquidity :- pool.liquidity;
    if price == 0 || liquidity == 0 then None
    else if pool.address in market.ticks && market.ticks[pool.address] != [] then
      TickWalk.MultiTickOutput(market.sqrtAt, pool.feeBps, if pool.currentTick.Some? then pool.currentTick.value else 0,
                               price, liquidity, market.ticks[pool.address], input, aToB)
    else SwapStep.SingleRangeOutput(pool.feeBps, price, liquidity, input, aToB)
  }

  function CpmmQuote(pool: PoolState, input: u64, aToB: bool): Option<u64> {
    if aToB then ConstantProduct.Quote(pool.reserveA, pool.reserveB, pool.feeBps, input)
    else ConstantProduct.Quote(pool.reserveB, pool.reserveA, pool.feeBps, input)
  }

  /** A failed bin or tick walk falls back on the constant-product rule. */
  function OutputAmount(market: Market, pool: PoolState, input: u64, aToB: bool): Option<u64> {
    if input == 0 then Some(0) else
    match pool.dexType
    case MeteoraDlmm => OrElse(DlmmQuote(market, pool, input, aToB), CpmmQuote(pool, input, aToB))
    case OrcaWhirlpool => OrElse(ClmmQuote(market, pool, input, aToB), CpmmQuote(pool, input, aToB))
    case RaydiumClmm => OrElse(ClmmQuote(market, pool, input, aToB), CpmmQuote(pool, input, aToB))
    case RaydiumAmm => CpmmQuote(pool, input, aToB)
    case RaydiumCp => CpmmQuote(pool, input, aToB)
    case PumpSwap => CpmmQuote(pool, input, aToB)
    case _ => market.otherVenue(pool, input, aToB)
  }

  // ---- Which rule quotes which pool ----

  /** The reserves of the token spent and of the token bought. */
  function Reserves(pool: PoolState, aToB: bool): (u64, u64) {
    if aToB then (pool.reserveA, pool.reserveB) else (pool.reserveB, pool.reserveA)
  }

  /** The constant-product rule on the pool's reserves in the direction of the swap. */
  function OnReserves(pool: PoolState, input: u64, aToB: bool): Option<u64> {
    ConstantProduct.Quote(Reserves(pool, aToB).0, Reserves(pool, aToB).1, pool.feeBps, input)
  }

  /** A bin pool is quoted by its bins from the active one; if it has none cached, or they give no quote, by its
      reserves. */
  lemma BinPoolQuotes(market: Market, pool: PoolState, input: u64, aToB: bool, out: u64)
    requires pool.dexType.MeteoraDlmm? && input > 0
    ensures OutputAmount(market, pool, input, aToB) == Some(out) <==>
              var quoted := pool.currentTick.Some? && pool.address in market.bins && market.bins[pool.address] != []
                            && BinWalk.BinOutput(market.bins[pool.address], pool.feeBps, pool.currentTick.value, input, aToB).Some?;
              if quoted
              then BinWalk.BinOutput(market.bins[pool.address], pool.feeBps, pool.currentTick.value, input, aToB) == Some(out)
              else OnReserves(pool, input, aToB) == Some(out)
  {
    hide BinWalk.BinOutput, ConstantProduct.Quote;
  }

  /** A concentrated pool, of either exchange, with a price and liquidity is quoted across its cached ticks, or in its
      current range if it has none; failing that, by its reserves. */
  lemma ConcentratedPoolQuotes(market: Market, pool: PoolState, input: u64, aToB: bool, out: u64)
    requires (pool.dexType.OrcaWhirlpool? || pool.dexType.RaydiumClmm?) && input > 0
    ensures var priced := pool.sqrtPrice.Some? && pool.liquidity.Some? && pool.sqrtPrice.value > 0 && pool.liquidity.value > 0;
            var ticked := pool.address in market.ticks && market.ticks[pool.address] != [];
            var own := if !priced then None
                       else if ticked then
                         TickWalk.MultiTickOutput(market.sqrtAt, pool.feeBps, if pool.currentTick == None then 0 else pool.currentTick.value,
                                                  pool.sqrtPrice.value, pool.liquidity.value, market.ticks[pool.address], input, aToB)
                       else SwapStep.SingleRangeOutput(pool.feeBps, pool.sqrtPrice.value, pool.liquidity.value, input, aToB);
            OutputAmount(market, pool, input, aToB) == Some(out) <==>
              own == Some(out) || (own == None && OnReserves(pool, input, aToB) == Some(out))
  {
    hide TickWalk.MultiTickOutput, SwapStep.SingleRangeOutput, ConstantProduct.Quote;
  }

  /** The other pools with reserves are quoted by them, and every pool quotes nothing for nothing. */
  lemma ReservePoolQuotes(market: Market, pool: PoolState, input: u64, aToB: bool)
    ensures OutputAmount(market, pool, 0, aToB) == Some(0)
    ensures input > 0 && (pool.dexType.RaydiumAmm? || pool.dexType.RaydiumCp? || pool.dexType.PumpSwap?) ==>
              OutputAmount(market, pool, input, aToB) == OnReserves(pool, input, aToB)
  {
    hide ConstantProduct.Quote;
  }
}
