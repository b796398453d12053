/** The search against a brute-force scan of the cache, and what every route it returns guarantees. */
module RouteSearchLaws {
  import opened Address
  import opened Machine
  import opened Pool
  import opened StateCache
  import opened RouteSearch
  import ProfitSimulator

  /** The iteration order of a hash set lists every element once. */
  ghost predicate Enumerates(order: set<Key> -> seq<Key>) {
    forall s: set<Key> :: NoDuplicates(order(s)) && Elements(order(s)) == s
  }

  lemma CapKeepsFirstTwenty(pools: seq<Key>)
    ensures Capped(pools) <= pools && |Capped(pools)| == if |pools| < 20 then |pools| else 20
  {
  }

  // ---- Brute force: routes described by scans of the pools, without the indexes ----

  /** The mint that hop `i` of a cycle buys. */
  function NextMint(mints: seq<Key>, baseMint: Key, i: nat): Key {
    if i + 1 < |mints| then mints[i + 1] else baseMint
  }

  function HopThrough(baseMint: Key, pools: seq<PoolState>, mints: seq<Key>, paid: seq<u64>, i: nat): RouteHop
    requires i < |pools| == |mints| == |paid|
  {
    RouteHop(pools[i].address, pools[i].dexType, mints[i], NextMint(mints, baseMint, i), paid[i])
  }

  /** The route from the base mint through these pools, each spending the mint listed for it, as it should be reported:
      marked with each pool's own exchange, each hop with what the pools pay along the way, and with the gain, which is
      positive and fits 63 bits. */
  ghost predicate IsQuotedRoute(market: Market, baseMint: Key, pools: seq<PoolState>, mints: seq<Key>, input: u64, r: ArbRoute)
    requires |pools| == |mints|
  {
    && pools != [] && |r.hops| == |pools| && r.baseMint == baseMint && r.inputAmount == input
    && var paid := ProfitSimulator.PaidAlong(market, pools, mints, input);
    && paid.Some?
    && (forall i :: 0 <= i < |pools| ==> r.hops[i] == HopThrough(baseMint, pools, mints, paid.value, i))
    && 0 < paid.value[|pools| - 1] - input < TWO_63
    && r.estimatedProfit == r.estimatedProfitLamports == paid.value[|pools| - 1] - input
  }

  ghost predicate TwoHop(e: Env, baseMint: Key, a: Key, b: Key, r: ArbRoute) {
    && a in Capped(e.order(TokenScan(e.cache, baseMint))) && a in e.cache.pools && b in e.cache.pools && a != b
    && var pa, pb := e.cache.pools[a].state, e.cache.pools[b].state;
    && pa.OtherToken(baseMint).Some?
    && var other := pa.OtherToken(baseMint).value;
    && Trades(pb, baseMint, other)
    && IsQuotedRoute(e.market, baseMint, [pa, pb], [baseMint, other], OptimalInput(pa, pb, baseMint), r)
  }

  ghost predicate ThreeHop(e: Env, baseMint: Key, a: Key, b: Key, c: Key, r: ArbRoute) {
    && a in Capped(e.order(TokenScan(e.cache, baseMint)))
    && a in e.cache.pools && b in e.cache.pools && c in e.cache.pools && a != b && a != c && b != c
    && var pa, pb, pc := e.cache.pools[a].state, e.cache.pools[b].state, e.cache.pools[c].state;
    && pa.OtherToken(baseMint).Some?
    && var mid1 := pa.OtherToken(baseMint).value;
    && b in Capped(e.order(TokenScan(e.cache, mid1)))
    && pb.OtherToken(mid1).Some?
    && var mid2 := pb.OtherToken(mid1).value;
    && mid2 != baseMint && Trades(pc, mid2, baseMint)
    && IsQuotedRoute(e.market, baseMint, [pa, pb, pc], [baseMint, mid1, mid2], 1_000_000, r)
  }

  /** The profitable routes there are, within the cap of 20 pools a token. */
  ghost predicate IsCandidate(e: Env, baseMint: Key, maxHops: nat, r: ArbRoute) {
    || (exists a, b :: TwoHop(e, baseMint, a, b, r))
    || (maxHops >= 3 && exists a, b, c :: ThreeHop(e, baseMint, a, b, c, r))
  }

  /** The i64 cast reads a gain as a gain exactly below 2^63, and with an input of at most 2^63 no loss as one. */
  lemma ProfitableExactlyWhen(input: u64, output: u64)
    requires input <= TWO_63
    ensures AsI64(output - input) > 0 <==> input < output < input + TWO_63
  {
    var profit := output - input;
    if profit >= 0 {
      assert profit % TWO_64 == profit;
    } else {
      assert profit % TWO_64 == profit + TWO_64;
    }
  }

  /** What a pool holds of the base token; a pool without it is read on its second side. */
  function BaseReserve(p: PoolState, baseMint: Key): u64 {
    if p.mintA == baseMint then p.reserveA else p.reserveB
  }

  /** The test amount is the largest that takes at most one percent of either pool's base reserve, but at least 10000;
      so it stays far below 2^63 and no loss can be read as a gain. */
  lemma OptimalInputIsSmall(a: PoolState, b: PoolState, baseMint: Key)
    ensures 10_000 <= OptimalInput(a, b, baseMint) <= U64_MAX / 100
    ensures forall k: nat :: k > 10_000 ==>
              (k <= OptimalInput(a, b, baseMint) <==> 100 * k <= BaseReserve(a, baseMint) && 100 * k <= BaseReserve(b, baseMint))
  {
  }

  lemma ReportedProfit(input: u64, output: u64)
    requires input <= TWO_63
    ensures AsI64(output - input) > 0 ==> AsI64(output - input) == output - input
  {
    ProfitableExactlyWhen(input, output);
  }

  lemma PaidByTwo(market: Market, m: Key, n: Key, a: PoolState, b: PoolState, input: u64)
    ensures ProfitSimulator.PaidAlong(market, [a, b], [m, n], input) ==
            var first := ProfitSimulator.PaidAlong(market, [a], [m], input);
            if first.None? then None else
            var second := ProfitSimulator.PaidAlong(market, [b], [n], first.value[0]);
            if second.None? then None else Some(first.value + second.value)
  {
    hide OutputAmount, ProfitSimulator.PaidAlong;
    assert [a] + [b] == [a, b] && [m] + [n] == [m, n];
    ProfitSimulator.PaidAlongAppend(market, [a], [m], b, n, input);
  }

  lemma PaidByThree(market: Market, l: Key, m: Key, n: Key, a: PoolState, b: PoolState, c: PoolState, input: u64)
    ensures ProfitSimulator.PaidAlong(market, [a, b, c], [l, m, n], input) ==
            var first := ProfitSimulator.PaidAlong(market, [a, b], [l, m], input);
            if first.None? then None else
            var third := ProfitSimulator.PaidAlong(market, [c], [n], first.value[1]);
            if third.None? then None else Some(first.value + third.value)
  {
    hide OutputAmount, ProfitSimulator.PaidAlong;
    assert [a, b] + [c] == [a, b, c] && [l, m] + [n] == [l, m, n];
    ProfitSimulator.PaidAlongAppend(market, [a, b], [l, m], c, n, input);
  }

  /** Two pools one after the other: what is simulated and profitable is exactly the quoted route. */
  lemma Simulate2IsQuoted(market: Market, baseMint: Key, otherMint: Key, a: PoolState, b: PoolState, input: u64, r: ArbRoute)
    requires input <= TWO_63
    ensures Simulate2(market, baseMint, otherMint, a, b, input) == Some(r) && r.IsProfitable() <==>
              IsQuotedRoute(market, baseMint, [a, b], [baseMint, otherMint], input, r)
  {
    hide OutputAmount, ProfitSimulator.PaidAlong, AsI64;
    PaidByTwo(market, baseMint, otherMint, a, b, input);
    ProfitSimulator.PaidByOne(market, a, baseMint, input);
    var first := ProfitSimulator.PaidAlong(market, [a], [baseMint], input);
    if first.Some? { ProfitSimulator.PaidByOne(market, b, otherMint, first.value[0]); }
    var simulated := Simulate2(market, baseMint, otherMint, a, b, input);
    if simulated.Some? {
      ProfitableExactlyWhen(input, simulated.value.hops[1].estimatedOutput);
      ReportedProfit(input, simulated.value.hops[1].estimatedOutput);
    }
    if IsQuotedRoute(market, baseMint, [a, b], [baseMint, otherMint], input, r) {
      assert r.hops == [r.hops[0], r.hops[1]];
      assert simulated.Some? && r.hops == simulated.value.hops;
    }
  }

  lemma Simulate3IsQuoted(market: Market, baseMint: Key, mid1: Key, mid2: Key, a: PoolState, b: PoolState, c: PoolState,
                          input: u64, r: ArbRoute)
    requires input <= TWO_63
    ensures Simulate3(market, baseMint, mid1, mid2, a, b, c, input) == Some(r) && r.IsProfitable() <==>
              IsQuotedRoute(market, baseMint, [a, b, c], [baseMint, mid1, mid2], input, r)
  {
    hide OutputAmount, ProfitSimulator.PaidAlong, AsI64;
    PaidByThree(market, baseMint, mid1, mid2, a, b, c, input);
    PaidByTwo(market, baseMint, mid1, a, b, input);
    ProfitSimulator.PaidByOne(market, a, baseMint, input);
    var first := ProfitSimulator.PaidAlong(market, [a], [baseMint], input);
    if first.Some? { ProfitSimulator.PaidByOne(market, b, mid1, first.value[0]); }
    var second := ProfitSimulator.PaidAlong(market, [a, b], [baseMint, mid1], input);
    if second.Some? { ProfitSimulator.PaidByOne(market, c, mid2, second.value[1]); }
    var simulated := Simulate3(market, baseMint, mid1, mid2, a, b, c, input);
    if simulated.Some? {
      ProfitableExactlyWhen(input, simulated.value.hops[2].estimatedOutput);
      ReportedProfit(input, simulated.value.hops[2].estimatedOutput);
    }
    if IsQuotedRoute(market, baseMint, [a, b, c], [baseMint, mid1, mid2], input, r) {
      assert r.hops == [r.hops[0], r.hops[1], r.hops[2]];
      assert simulated.Some? && r.hops == simulated.value.hops;
    }
  }

  lemma {:induction false} FlatMapHolds(f: Key -> seq<ArbRoute>, keys: seq<Key>, r: ArbRoute)
    ensures r in FlatMap(f, keys) <==> exists k :: k in keys && r in f(k)
  {
    if keys == [] {
    } else {
      var init, last := keys[..|keys| - 1], keys[|keys| - 1];
      FlatMapHolds(f, init, r);
      assert forall k :: k in keys <==> k in init || k == last;
    }
  }

  lemma PairPoolsAreScanned(e: Env, x: Key, y: Key, p: Key)
    requires Agrees(e.cache)
    ensures p in e.PoolsForPair(x, y) <==> p in e.cache.pools && Trades(e.cache.pools[p].state, x, y)
  {
    assert p in e.PoolsForPair(x, y) <==> p in Elements(PairLookup(e.cache, x, y));
    assert Elements(PairLookup(e.cache, x, y)) == PairScan(e.cache, x, y);
  }

  lemma CappedTokenPools(e: Env, mint: Key, p: Key)
    requires Agrees(e.cache) && Enumerates(e.order)
    ensures e.PoolsForToken(mint) == e.order(TokenScan(e.cache, mint))
    ensures p in Capped(e.PoolsForToken(mint)) ==> p in e.cache.pools && e.cache.pools[p].state.OtherToken(mint).Some?
  {
    assert TokenLookup(e.cache, mint) == TokenScan(e.cache, mint);
    if p in Capped(e.PoolsForToken(mint)) {
      assert p in Elements(e.order(TokenScan(e.cache, mint)));
    }
  }

  lemma From2Holds(e: Env, baseMint: Key, a: Key, r: ArbRoute)
    requires Agrees(e.cache) && Enumerates(e.order) && a in Capped(e.PoolsForToken(baseMint))
    ensures r in From2(e, baseMint, a) <==> exists b :: TwoHop(e, baseMint, a, b, r)
  {
    hide Simulate2, OptimalInput, Capped, IsQuotedRoute;
    CappedTokenPools(e, baseMint, a);
    var other := e.cache.pools[a].state.OtherToken(baseMint).value;
    var f := (b: Key) => Try2(e, baseMint, a, other, b);
    FlatMapHolds(f, e.PoolsForPair(baseMint, other), r);
    forall b ensures (b in e.PoolsForPair(baseMint, other) && r in f(b)) <==> TwoHop(e, baseMint, a, b, r) {
      PairPoolsAreScanned(e, baseMint, other, b);
      if b in e.cache.pools {
        var pa, pb := e.cache.pools[a].state, e.cache.pools[b].state;
        OptimalInputIsSmall(pa, pb, baseMint);
        Simulate2IsQuoted(e.market, baseMint, other, pa, pb, OptimalInput(pa, pb, baseMint), r);
      }
    }
  }

  lemma All2Holds(e: Env, baseMint: Key, r: ArbRoute)
    requires Agrees(e.cache) && Enumerates(e.order)
    ensures r in All2(e, baseMint) <==> exists a, b :: TwoHop(e, baseMint, a, b, r)
  {
    hide IsQuotedRoute, OptimalInput, Capped, From2;
    var f := (a: Key) => From2(e, baseMint, a);
    var basePools := Capped(e.PoolsForToken(baseMint));
    FlatMapHolds(f, basePools, r);
    CappedTokenPools(e, baseMint, 0);
    forall a | a in basePools ensures r in f(a) <==> exists b :: TwoHop(e, baseMint, a, b, r) {
      From2Holds(e, baseMint, a, r);
    }
  }

  lemma Second3Holds(e: Env, baseMint: Key, a: Key, mid1: Key, b: Key, r: ArbRoute)
    requires Agrees(e.cache) && Enumerates(e.order) && a in Capped(e.PoolsForToken(baseMint))
    requires a in e.cache.pools && e.cache.pools[a].state.OtherToken(baseMint) == Some(mid1)
    requires b in Capped(e.PoolsForToken(mid1))
    ensures r in Second3(e, baseMint, a, mid1, b) <==> exists c :: ThreeHop(e, baseMint, a, b, c, r)
  {
    hide Simulate3, Capped, IsQuotedRoute;
    CappedTokenPools(e, baseMint, a);
    CappedTokenPools(e, mid1, b);
    var mid2 := e.cache.pools[b].state.OtherToken(mid1).value;
    var f := (c: Key) => Try3(e, baseMint, a, mid1, b, mid2, c);
    FlatMapHolds(f, e.PoolsForPair(mid2, baseMint), r);
    if b != a && mid2 != baseMint {
      forall c ensures (c in e.PoolsForPair(mid2, baseMint) && r in f(c)) <==> ThreeHop(e, baseMint, a, b, c, r) {
        PairPoolsAreScanned(e, mid2, baseMint, c);
        if c in e.cache.pools {
          Simulate3IsQuoted(e.market, baseMint, mid1, mid2, e.cache.pools[a].state, e.cache.pools[b].state, e.cache.pools[c].state,
                            THREE_HOP_INPUT, r);
        }
      }
    }
  }

  lemma From3Holds(e: Env, baseMint: Key, a: Key, r: ArbRoute)
    requires Agrees(e.cache) && Enumerates(e.order) && a in Capped(e.PoolsForToken(baseMint))
    ensures r in From3(e, baseMint, a) <==> exists b, c :: ThreeHop(e, baseMint, a, b, c, r)
  {
    hide IsQuotedRoute, Capped, Second3;
    CappedTokenPools(e, baseMint, a);
    var mid1 := e.cache.pools[a].state.OtherToken(baseMint).value;
    CappedTokenPools(e, mid1, a);
    var f := (b: Key) => Second3(e, baseMint, a, mid1, b);
    FlatMapHolds(f, Capped(e.PoolsForToken(mid1)), r);
    forall b | b in Capped(e.PoolsForToken(mid1)) ensures r in f(b) <==> exists c :: ThreeHop(e, baseMint, a, b, c, r) {
      Second3Holds(e, baseMint, a, mid1, b, r);
    }
  }

  lemma All3Holds(e: Env, baseMint: Key, r: ArbRoute)
    requires Agrees(e.cache) && Enumerates(e.order)
    ensures r in All3(e, baseMint) <==> exists a, b, c :: ThreeHop(e, baseMint, a, b, c, r)
  {
    hide IsQuotedRoute, Capped, From3;
    var f := (a: Key) => From3(e, baseMint, a);
    var basePools := Capped(e.PoolsForToken(baseMint));
    FlatMapHolds(f, basePools, r);
    CappedTokenPools(e, baseMint, 0);
    forall a | a in basePools ensures r in f(a) <==> exists b, c :: ThreeHop(e, baseMint, a, b, c, r) {
      From3Holds(e, baseMint, a, r);
    }
  }

  /** The search enumerates exactly the brute-force candidates. */
  lemma CandidatesAreBruteForce(e: Env, baseMint: Key, maxHops: nat, r: ArbRoute)
    requires Agrees(e.cache) && Enumerates(e.order)
    ensures r in Candidates(e, baseMint, maxHops) <==> IsCandidate(e, baseMint, maxHops, r)
  {
    All2Holds(e, baseMint, r);
    All3Holds(e, baseMint, r);
  }

  /** Whatever the search returns is at most five brute-force candidates, and when it returns fewer than five it
      returns every candidate there is. */
  lemma SearchRefinesBruteForce(e: Env, baseMint: Key, maxHops: nat, routes: seq<ArbRoute>, r: ArbRoute)
    requires Agrees(e.cache) && Enumerates(e.order)
    requires multiset(routes) == multiset(FirstFive(Candidates(e, baseMint, maxHops)))
    ensures |routes| <= 5
    ensures r in routes ==> IsCandidate(e, baseMint, maxHops, r)
    ensures |routes| < 5 ==> (r in routes <==> IsCandidate(e, baseMint, maxHops, r))
  {
    hide Candidates, IsCandidate;
    var all := Candidates(e, baseMint, maxHops);
    CandidatesAreBruteForce(e, baseMint, maxHops, r);
    assert |routes| == |multiset(routes)| == |multiset(FirstFive(all))| == |FirstFive(all)|;
    assert r in routes <==> r in multiset(routes);
    assert r in FirstFive(all) <==> r in multiset(FirstFive(all));
  }

  // ---- What every candidate guarantees ----

  /** Every pool is stored under its own address. */
  ghost predicate Keyed(c: Contents) {
    forall k :: k in c.pools ==> c.pools[k].state.address == k
  }

  function States(c: Contents): map<Key, PoolState> {
    map k | k in c.pools :: c.pools[k].state
  }

  /** A route worth sending: a cycle of distinct pools, each of the exchange the hop is marked with and trading the hop's
      two mints, paying back more than it takes, and quoted so that simulating it again on the same cache gives the same profit. */
  ghost predicate IsReal(e: Env, baseMint: Key, r: ArbRoute) {
    && r.IsCircular() && r.IsLinked() && r.HasDistinctPools() && r.baseMint == baseMint && 2 <= |r.hops| <= 3
    && (forall i :: 0 <= i < |r.hops| ==>
          r.hops[i].pool in e.cache.pools
          && r.hops[i].dexType == e.cache.pools[r.hops[i].pool].state.dexType
          && Trades(e.cache.pools[r.hops[i].pool].state, r.hops[i].inputMint, r.hops[i].outputMint))
    && var outputs := ProfitSimulator.HopOutputs(e.market, States(e.cache), r.hops, r.inputAmount);
    && outputs.Some?
    && (forall i :: 0 <= i < |r.hops| ==> outputs.value[i] == r.hops[i].estimatedOutput)
    && var gain := ProfitSimulator.FinalOutput(outputs.value, r.inputAmount) - r.inputAmount;
    && 0 < gain == r.estimatedProfit == r.estimatedProfitLamports
  }

  lemma OtherTokenTrades(p: PoolState, mint: Key)
    requires p.OtherToken(mint).Some?
    ensures Trades(p, mint, p.OtherToken(mint).value)
  {
  }

  lemma QuotedRouteIsReal(e: Env, baseMint: Key, keys: seq<Key>, pools: seq<PoolState>, mints: seq<Key>, input: u64, r: ArbRoute)
    requires Keyed(e.cache) && 2 <= |keys| <= 3 && |pools| == |mints| == |keys| && mints[0] == baseMint
    requires forall i :: 0 <= i < |keys| ==> keys[i] in e.cache.pools && pools[i] == e.cache.pools[keys[i]].state
    requires forall i, j :: 0 <= i < j < |keys| ==> keys[i] != keys[j]
    requires forall i :: 0 <= i < |keys| ==> Trades(pools[i], mints[i], NextMint(mints, baseMint, i))
    requires IsQuotedRoute(e.market, baseMint, pools, mints, input, r)
    ensures IsReal(e, baseMint, r)
  {
    hide OutputAmount, ProfitSimulator.PaidAlong, ProfitSimulator.HopOutputs, Trades;
    var states := States(e.cache);
    forall i | 0 <= i < |r.hops|
      ensures r.hops[i].pool == keys[i] && r.hops[i].dexType == pools[i].dexType
      ensures r.hops[i].inputMint == mints[i] && r.hops[i].outputMint == NextMint(mints, baseMint, i)
    {
      assert keys[i] in e.cache.pools && pools[i].address == keys[i];
      assert r.hops[i].pool == pools[i].address;
    }
    ProfitSimulator.HopOutputsIsPaidAlong(e.market, states, r.hops, r.inputAmount);
    assert ProfitSimulator.PoolsOf(states, r.hops) == pools;
    assert ProfitSimulator.MintsOf(r.hops) == mints;
  }

  lemma TwoHopIsReal(e: Env, baseMint: Key, a: Key, b: Key, r: ArbRoute)
    requires Keyed(e.cache) && TwoHop(e, baseMint, a, b, r)
    ensures IsReal(e, baseMint, r)
  {
    hide IsQuotedRoute, OptimalInput, Capped, IsReal;
    var pa, pb := e.cache.pools[a].state, e.cache.pools[b].state;
    OtherTokenTrades(pa, baseMint);
    var other := pa.OtherToken(baseMint).value;
    QuotedRouteIsReal(e, baseMint, [a, b], [pa, pb], [baseMint, other], OptimalInput(pa, pb, baseMint), r);
  }

  lemma ThreeHopIsReal(e: Env, baseMint: Key, a: Key, b: Key, c: Key, r: ArbRoute)
    requires Keyed(e.cache) && ThreeHop(e, baseMint, a, b, c, r)
    ensures IsReal(e, baseMint, r)
  {
    hide IsQuotedRoute, Capped, IsReal;
    var pa, pb, pc := e.cache.pools[a].state, e.cache.pools[b].state, e.cache.pools[c].state;
    OtherTokenTrades(pa, baseMint);
    var mid1 := pa.OtherToken(baseMint).value;
    OtherTokenTrades(pb, mid1);
    var mid2 := pb.OtherToken(mid1).value;
    QuotedRouteIsReal(e, baseMint, [a, b, c], [pa, pb, pc], [baseMint, mid1, mid2], 1_000_000, r);
  }

  /** Every route the search returns is real. */
  lemma EveryRouteIsReal(e: Env, baseMint: Key, maxHops: nat, routes: seq<ArbRoute>, r: ArbRoute)
    requires Agrees(e.cache) && Enumerates(e.order) && Keyed(e.cache)
    requires multiset(routes) == multiset(FirstFive(Candidates(e, baseMint, maxHops))) && r in routes
    ensures IsReal(e, baseMint, r)
  {
    SearchRefinesBruteForce(e, baseMint, maxHops, routes, r);
    if a, b :| TwoHop(e, baseMint, a, b, r) {
      TwoHopIsReal(e, baseMint, a, b, r);
    } else {
      var a, b, c :| ThreeHop(e, baseMint, a, b, c, r);
      ThreeHopIsReal(e, baseMint, a, b, c, r);
    }
  }
}
