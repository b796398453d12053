/** Search for circular routes over the indexed cache, with an early exit after five profitable ones. */
module RouteSearch {
  import opened Address
  import opened Machine
  import opened Pool
  import opened StateCache

  const MAX_POOLS_PER_TOKEN: nat := 20
  const EARLY_EXIT_ROUTES: nat := 5
  const THREE_HOP_INPUT: u64 := 1_000_000
  const TWO_63: int := 0x8000_0000_0000_0000
  const TWO_64: int := 0x1_0000_0000_0000_0000

  /** What a search reads. `order` is the arbitrary but fixed order in which a hash set is iterated. */
  datatype Env = Env(cache: Contents, order: set<Key> -> seq<Key>, market: Market) {
    function GetAny(pool: Key): Option<PoolState> {
      StateLookup(cache, pool)
    }

    function PoolsForToken(mint: Key): seq<Key> {
      order(TokenLookup(cache, mint))
    }

    function PoolsForPair(a: Key, b: Key): seq<Key> {
      PairLookup(cache, a, b)
    }
  }

  function Capped(pools: seq<Key>): seq<Key> {
    if |pools| <= MAX_POOLS_PER_TOKEN then pools else pools[..MAX_POOLS_PER_TOKEN]
  }

  // ---- Simulating one candidate ----

  /** `x as i64`: only the low 64 bits stay. */
  function AsI64(x: int): int {
    var low := x % TWO_64;
    if low < TWO_63 then low else low - TWO_64
  }

  function OptimalInput(a: PoolState, b: PoolState, baseMint: Key): u64 {
    var reserveA := if a.mintA == baseMint then a.reserveA else a.reserveB;
    var reserveB := if b.mintA == baseMint then b.reserveA else b.reserveB;
    var least := if reserveA <= reserveB then reserveA else reserveB;
    if least / 100 > 10_000 then least / 100 else 10_000
  }

  function RouteOf(hops: seq<RouteHop>, baseMint: Key, input: u64, finalAmount: u64): ArbRoute {
    var profit := finalAmount - input;
    ArbRoute(hops, baseMint, input, AsI64(profit), if profit > 0 then profit else 0)
  }

  function Simulate2(market: Market, baseMint: Key, otherMint: Key, a: PoolState, b: PoolState, input: u64): Option<ArbRoute> {
    var aToBA :- a.IsAToB(baseMint);
    var mid :- OutputAmount(market, a, input, aToBA);
    if mid == 0 then None else
    var aToBB :- b.IsAToB(otherMint);
    var final :- OutputAmount(market, b, mid, aToBB);
    Some(RouteOf([RouteHop(a.address, a.dexType, baseMint, otherMint, mid),
                  RouteHop(b.address, b.dexType, otherMint, baseMint, final)], baseMint, input, final))
  }

  function Simulate3(market: Market, baseMint: Key, mid1: Key, mid2: Key, a: PoolState, b: PoolState, c: PoolState,
                     input: u64): Option<ArbRoute> {
    var aToBA :- a.IsAToB(baseMint);
    var amount1 :- OutputAmount(market, a, input, aToBA);
    if amount1 == 0 then None else
    var aToBB :- b.IsAToB(mid1);
    var amount2 :- OutputAmount(market, b, amount1, aToBB);
    if amount2 == 0 then None else
    var aToBC :- c.IsAToB(mid2);
    var final :- OutputAmount(market, c, amount2, aToBC);
    Some(RouteOf([RouteHop(a.address, a.dexType, baseMint, mid1, amount1),
                  RouteHop(b.address, b.dexType, mid1, mid2, amount2),
                  RouteHop(c.address, c.dexType, mid2, baseMint, final)], baseMint, input, final))
  }

  // ---- Every candidate, in search order ----

  function IfProfitable(r: Option<ArbRoute>): seq<ArbRoute> {
    if r.Some? && r.value.IsProfitable() then [r.value] else []
  }

  function FlatMap(f: Key -> seq<ArbRoute>, keys: seq<Key>): seq<ArbRoute> {
    if keys == [] then [] else FlatMap(f, keys[..|keys| - 1]) + f(keys[|keys| - 1])
  }

  function Try2(e: Env, baseMint: Key, a: Key, other: Key, b: Key): seq<ArbRoute> {
    if b == a || e.GetAny(a).None? || e.GetAny(b).None? then [] else
    var pa, pb := e.GetAny(a).value, e.GetAny(b).value;
    IfProfitable(Simulate2(e.market, baseMint, other, pa, pb, OptimalInput(pa, pb, baseMint)))
  }

  function From2(e: Env, baseMint: Key, a: Key): seq<ArbRoute> {
    if e.GetAny(a).None? || e.GetAny(a).value.OtherToken(baseMint).None? then [] else
    var other := e.GetAny(a).value.OtherToken(baseMint).value;
    FlatMap(b => Try2(e, baseMint, a, other, b), e.PoolsForPair(baseMint, other))
  }

  function All2(e: Env, baseMint: Key): seq<ArbRoute> {
    FlatMap(a => From2(e, baseMint, a), Capped(e.PoolsForToken(baseMint)))
  }

  function Try3(e: Env, baseMint: Key, a: Key, mid1: Key, b: Key, mid2: Key, c: Key): seq<ArbRoute> {
    if c == a || c == b || e.GetAny(a).None? || e.GetAny(b).None? || e.GetAny(c).None? then [] else
    IfProfitable(Simulate3(e.market, baseMint, mid1, mid2, e.GetAny(a).value, e.GetAny(b).value, e.GetAny(c).value, THREE_HOP_INPUT))
  }

  function Second3(e: Env, baseMint: Key, a: Key, mid1: Key, b: Key): seq<ArbRoute> {
    if b == a || e.GetAny(b).None? || e.GetAny(b).value.OtherToken(mid1).None? then [] else
    var mid2 := e.GetAny(b).value.OtherToken(mid1).value;
    if mid2 == baseMint then [] else
    FlatMap(c => Try3(e, baseMint, a, mid1, b, mid2, c), e.PoolsForPair(mid2, baseMint))
  }

  function From3(e: Env, baseMint: Key, a: Key): seq<ArbRoute> {
    if e.GetAny(a).None? || e.GetAny(a).value.OtherToken(baseMint).None? then [] else
    var mid1 := e.GetAny(a).value.OtherToken(baseMint).value;
    FlatMap(b => Second3(e, baseMint, a, mid1, b), Capped(e.PoolsForToken(mid1)))
  }

  function All3(e: Env, baseMint: Key): seq<ArbRoute> {
    FlatMap(a => From3(e, baseMint, a), Capped(e.PoolsForToken(baseMint)))
  }

  function Candidates(e: Env, baseMint: Key, maxHops: nat): seq<ArbRoute> {
    All2(e, baseMint) + if maxHops >= 3 then All3(e, baseMint) else []
  }

  // ---- The early exit keeps a prefix ----

  function FirstFive(routes: seq<ArbRoute>): seq<ArbRoute> {
    if |routes| <= EARLY_EXIT_ROUTES then routes else routes[..EARLY_EXIT_ROUTES]
  }

  lemma {:induction false} FlatMapPrefix(f: Key -> seq<ArbRoute>, keys: seq<Key>, n: nat)
    requires n <= |keys|
    ensures FlatMap(f, keys[..n]) <= FlatMap(f, keys)
    decreases |keys|
  {
    if n < |keys| {
      assert keys[..|keys| - 1][..n] == keys[..n];
      FlatMapPrefix(f, keys[..|keys| - 1], n);
    } else {
      assert keys[..n] == keys;
    }
  }

  /** Once five routes are held, the rest of the search could not change them. */
  lemma StopEarly(found: seq<ArbRoute>, f: Key -> seq<ArbRoute>, keys: seq<Key>, n: nat)
    requires n <= |keys| && |FirstFive(found + FlatMap(f, keys[..n]))| >= EARLY_EXIT_ROUTES
    ensures FirstFive(found + FlatMap(f, keys)) == FirstFive(found + FlatMap(f, keys[..n]))
  {
    FlatMapPrefix(f, keys, n);
  }

  lemma FlatMapNothing(f: Key -> seq<ArbRoute>)
    ensures FlatMap(f, []) == []
  {
  }

  lemma FlatMapNext(f: Key -> seq<ArbRoute>, keys: seq<Key>, n: nat)
    requires n < |keys|
    ensures FlatMap(f, keys[..n + 1]) == FlatMap(f, keys[..n]) + f(keys[n])
  {
    assert keys[..n + 1][..n] == keys[..n];
  }

  lemma FirstFiveConcat(a: seq<ArbRoute>, b: seq<ArbRoute>)
    ensures if |FirstFive(a)| < EARLY_EXIT_ROUTES then FirstFive(a) == a else FirstFive(a + b) == FirstFive(a)
  {
  }

  lemma NothingFoundYet(found: seq<ArbRoute>, f: Key -> seq<ArbRoute>, keys: seq<Key>)
    requires |found| <= EARLY_EXIT_ROUTES
    ensures FirstFive(found + FlatMap(f, keys[..0])) == found
  {
    assert found + [] == found;
  }

  lemma FirstFiveNext(found: seq<ArbRoute>, f: Key -> seq<ArbRoute>, keys: seq<Key>, n: nat)
    requires n < |keys|
    ensures var before := FirstFive(found + FlatMap(f, keys[..n]));
            && (f(keys[n]) == [] ==> FirstFive(found + FlatMap(f, keys[..n + 1])) == before)
            && (|before| < EARLY_EXIT_ROUTES ==>
                  FirstFive(found + FlatMap(f, keys[..n + 1])) == FirstFive(before + f(keys[n])))
  {
    FlatMapNext(f, keys, n);
    assert found + (FlatMap(f, keys[..n]) + f(keys[n])) == (found + FlatMap(f, keys[..n])) + f(keys[n]);
    assert f(keys[n]) == [] ==> FlatMap(f, keys[..n]) + f(keys[n]) == FlatMap(f, keys[..n]);
  }

  // ---- The search as the engine runs it ----

  method FindReturn2(e: Env, baseMint: Key, a: Key, other: Key, poolA: PoolState, found: seq<ArbRoute>) returns (routes: seq<ArbRoute>)
    requires |found| < EARLY_EXIT_ROUTES && e.GetAny(a) == Some(poolA)
    ensures routes == FirstFive(found + FlatMap(b => Try2(e, baseMint, a, other, b), e.PoolsForPair(baseMint, other)))
  {
    hide Simulate2, OptimalInput, FlatMap;
    FlatMapNothing(b => Try2(e, baseMint, a, other, b));
    var returnPools := e.PoolsForPair(baseMint, other);
    ghost var f := (b: Key) => Try2(e, baseMint, a, other, b);
    routes := found;
    for i := 0 to |returnPools|
      invariant |routes| < EARLY_EXIT_ROUTES && routes == found + FlatMap(f, returnPools[..i])
    {
      FlatMapNext(f, returnPools, i);
      var b := returnPools[i];
      if b == a { continue; }
      var poolB := e.GetAny(b);
      if poolB.None? { continue; }
      var testAmount := OptimalInput(poolA, poolB.value, baseMint);
      var route := Simulate2(e.market, baseMint, other, poolA, poolB.value, testAmount);
      if route.Some? && route.value.IsProfitable() {
        routes := routes + [route.value];
        if |routes| >= EARLY_EXIT_ROUTES {
          StopEarly(found, f, returnPools, i + 1);
          return;
        }
      }
    }
    assert returnPools[..|returnPools|] == returnPools;
  }

  method Find2HopRoutes(e: Env, baseMint: Key) returns (routes: seq<ArbRoute>)
    ensures routes == FirstFive(All2(e, baseMint))
  {
    var basePools := Capped(e.PoolsForToken(baseMint));
    ghost var f := (a: Key) => From2(e, baseMint, a);
    routes := [];
    for i := 0 to |basePools|
      invariant routes == FirstFive(FlatMap(f, basePools[..i]))
    {
      assert [] + FlatMap(f, basePools[..i]) == FlatMap(f, basePools[..i]);
      if |routes| >= EARLY_EXIT_ROUTES {
        StopEarly([], f, basePools, i);
        assert [] + FlatMap(f, basePools) == FlatMap(f, basePools);
        return;
      }
      FlatMapNext(f, basePools, i);
      var a := basePools[i];
      var poolA := e.GetAny(a);
      if poolA.None? { continue; }
      var other := poolA.value.OtherToken(baseMint);
      if other.None? { continue; }
      routes := FindReturn2(e, baseMint, a, other.value, poolA.value, routes);
    }
    assert basePools[..|basePools|] == basePools;
  }

  method FindReturn3(e: Env, baseMint: Key, a: Key, mid1: Key, b: Key, mid2: Key, poolA: PoolState, poolB: PoolState,
                     found: seq<ArbRoute>) returns (routes: seq<ArbRoute>)
    requires |found| < EARLY_EXIT_ROUTES && e.GetAny(a) == Some(poolA) && e.GetAny(b) == Some(poolB)
    ensures routes == FirstFive(found + FlatMap(c => Try3(e, baseMint, a, mid1, b, mid2, c), e.PoolsForPair(mid2, baseMint)))
  {
    hide Simulate3, FlatMap;
    FlatMapNothing(c => Try3(e, baseMint, a, mid1, b, mid2, c));
    var returnPools := e.PoolsForPair(mid2, baseMint);
    ghost var f := (c: Key) => Try3(e, baseMint, a, mid1, b, mid2, c);
    routes := found;
    for i := 0 to |returnPools|
      invariant |routes| < EARLY_EXIT_ROUTES && routes == found + FlatMap(f, returnPools[..i])
    {
      FlatMapNext(f, returnPools, i);
      var c := returnPools[i];
      if c == a || c == b { continue; }
      var poolC := e.GetAny(c);
      if poolC.None? { continue; }
      var route := Simulate3(e.market, baseMint, mid1, mid2, poolA, poolB, poolC.value, THREE_HOP_INPUT);
      if route.Some? && route.value.IsProfitable() {
        routes := routes + [route.value];
        if |routes| >= EARLY_EXIT_ROUTES {
          StopEarly(found, f, returnPools, i + 1);
          return;
        }
      }
    }
    assert returnPools[..|returnPools|] == returnPools;
  }

  method FindSecond3(e: Env, baseMint: Key, a: Key, mid1: Key, poolA: PoolState, found: seq<ArbRoute>) returns (routes: seq<ArbRoute>)
    requires |found| < EARLY_EXIT_ROUTES && e.GetAny(a) == Some(poolA)
    ensures routes == FirstFive(found + FlatMap(b => Second3(e, baseMint, a, mid1, b), Capped(e.PoolsForToken(mid1))))
  {
    hide FlatMap, FirstFive, Capped;
    var mid1Pools := Capped(e.PoolsForToken(mid1));
    ghost var f := (b: Key) => Second3(e, baseMint, a, mid1, b);
    NothingFoundYet(found, f, mid1Pools);
    routes := found;
    for i := 0 to |mid1Pools|
      invariant routes == FirstFive(found + FlatMap(f, mid1Pools[..i]))
    {
      FirstFiveNext(found, f, mid1Pools, i);
      var b := mid1Pools[i];
      if b == a { continue; }
      if |routes| >= EARLY_EXIT_ROUTES {
        StopEarly(found, f, mid1Pools, i);
        return;
      }
      var poolB := e.GetAny(b);
      if poolB.None? { continue; }
      var mid2 := poolB.value.OtherToken(mid1);
      if mid2.None? || mid2.value == baseMint { continue; }
      routes := FindReturn3(e, baseMint, a, mid1, b, mid2.value, poolA, poolB.value, routes);
    }
    assert mid1Pools[..|mid1Pools|] == mid1Pools;
  }

  method Find3HopRoutes(e: Env, baseMint: Key, found: seq<ArbRoute>) returns (routes: seq<ArbRoute>)
    requires |found| <= EARLY_EXIT_ROUTES
    ensures routes == FirstFive(found + All3(e, baseMint))
  {
    hide FlatMap, FirstFive, Capped;
    var basePools := Capped(e.PoolsForToken(baseMint));
    ghost var f := (a: Key) => From3(e, baseMint, a);
    NothingFoundYet(found, f, basePools);
    routes := found;
    for i := 0 to |basePools|
      invariant routes == FirstFive(found + FlatMap(f, basePools[..i]))
    {
      if |routes| >= EARLY_EXIT_ROUTES {
        StopEarly(found, f, basePools, i);
        return;
      }
      FirstFiveNext(found, f, basePools, i);
      var a := basePools[i];
      var poolA := e.GetAny(a);
      if poolA.None? { continue; }
      var mid1 := poolA.value.OtherToken(baseMint);
      if mid1.None? { continue; }
      routes := FindSecond3(e, baseMint, a, mid1.value, poolA.value, routes);
    }
    assert basePools[..|basePools|] == basePools;
  }

  // ---- Sorting by profit ----

  predicate SortedByProfit(routes: seq<ArbRoute>) {
    forall i, j :: 0 <= i < j < |routes| ==> routes[i].estimatedProfit >= routes[j].estimatedProfit
  }

  function InsertByProfit(r: ArbRoute, routes: seq<ArbRoute>): seq<ArbRoute> {
    if routes == [] || r.estimatedProfit >= routes[0].estimatedProfit then [r] + routes
    else [routes[0]] + InsertByProfit(r, routes[1..])
  }

  function SortByProfit(routes: seq<ArbRoute>): seq<ArbRoute> {
    if routes == [] then [] else InsertByProfit(routes[0], SortByProfit(routes[1..]))
  }

  lemma {:induction false} InsertKeepsRoutes(r: ArbRoute, routes: seq<ArbRoute>)
    ensures multiset(InsertByProfit(r, routes)) == multiset(routes) + multiset{r}
  {
    if routes == [] || r.estimatedProfit >= routes[0].estimatedProfit {
    } else {
      InsertKeepsRoutes(r, routes[1..]);
      assert routes == [routes[0]] + routes[1..];
    }
  }

  lemma {:induction false} InsertKeepsSorted(r: ArbRoute, routes: seq<ArbRoute>)
    requires SortedByProfit(routes)
    ensures SortedByProfit(InsertByProfit(r, routes))
    ensures var s := InsertByProfit(r, routes);
            s[0].estimatedProfit == if routes == [] || r.estimatedProfit >= routes[0].estimatedProfit
                                    then r.estimatedProfit else routes[0].estimatedProfit
  {
    if routes == [] || r.estimatedProfit >= routes[0].estimatedProfit {
    } else {
      InsertKeepsSorted(r, routes[1..]);
      var rest := InsertByProfit(r, routes[1..]);
      assert routes[0].estimatedProfit >= rest[0].estimatedProfit;
    }
  }

  lemma {:induction false} SortSorts(routes: seq<ArbRoute>)
    ensures SortedByProfit(SortByProfit(routes)) && multiset(SortByProfit(routes)) == multiset(routes)
  {
    if routes == [] {
    } else {
      SortSorts(routes[1..]);
      InsertKeepsSorted(routes[0], SortByProfit(routes[1..]));
      InsertKeepsRoutes(routes[0], SortByProfit(routes[1..]));
      assert routes == [routes[0]] + routes[1..];
    }
  }

  /** The search: the first five profitable candidates, best first. */
  method FindRoutesForBase(e: Env, baseMint: Key, maxHops: nat) returns (routes: seq<ArbRoute>)
    ensures SortedByProfit(routes)
    ensures multiset(routes) == multiset(FirstFive(Candidates(e, baseMint, maxHops)))
  {
    hide All2, All3;
    routes := Find2HopRoutes(e, baseMint);
    FirstFiveConcat(All2(e, baseMint), All3(e, baseMint));
    if maxHops >= 3 && |routes| < EARLY_EXIT_ROUTES {
      routes := Find3HopRoutes(e, baseMint, routes);
    }
    assert All2(e, baseMint) + [] == All2(e, baseMint);
    SortSorts(routes);
    routes := SortByProfit(routes);
  }
}
