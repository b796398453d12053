/** The last check before a bundle is sent: quote the route again on the freshest pools and apply the profit gates. */
module ProfitSimulator {
  import opened Address
  import opened Machine
  import opened Pool
  import ConstantProduct

  const MAX_SANE_PROFIT: u64 := 10_000_000_000

  /** Fractions are rationals here; the engine computes them in floating point. */
  datatype Settings = Settings(tipFraction: real, slippage: real, minProfit: u64, minTip: u64)

  datatype Verdict =
    | Profitable(route: ArbRoute, netProfit: u64, tip: u64, finalProfit: u64, minFinalOutput: u64)
    | Unprofitable

  /** `x as u64` on a floating-point number saturates. */
  function ToU64(x: real): u64 {
    if x < 0.0 then 0 else if x.Floor > U64_MAX then U64_MAX else x.Floor
  }

  /** Output of each hop in turn, each fed with the one before; no answer as soon as a pool is missing, does not hold
      the hop's input token, refuses to quote, or pays nothing. */
  function HopOutputs(market: Market, pools: map<Key, PoolState>, hops: seq<RouteHop>, input: u64): (r: Option<seq<u64>>)
    ensures r.Some? ==> |r.value| == |hops|
  {
    if hops == [] then Some([]) else
    var before :- HopOutputs(market, pools, hops[..|hops| - 1], input);
    var hop, amount := hops[|hops| - 1], if before == [] then input else before[|before| - 1];
    if hop.pool !in pools then None else
    var aToB :- pools[hop.pool].IsAToB(hop.inputMint);
    var out :- OutputAmount(market, pools[hop.pool], amount, aToB);
    if out == 0 then None else Some(before + [out])
  }

  function FinalOutput(outputs: seq<u64>, input: u64): u64 {
    if outputs == [] then input else outputs[|outputs| - 1]
  }

  lemma {:induction false} MissingHopLosesRoute(market: Market, pools: map<Key, PoolState>, hops: seq<RouteHop>, input: u64, n: nat)
    requires n <= |hops| && HopOutputs(market, pools, hops[..n], input).None?
    ensures HopOutputs(market, pools, hops, input).None?
    decreases |hops|
  {
    if n < |hops| {
      assert hops[..|hops| - 1][..n] == hops[..n];
      MissingHopLosesRoute(market, pools, hops[..|hops| - 1], input, n);
    } else {
      assert hops[..n] == hops;
    }
  }

  lemma {:induction false} MissingPoolLosesRoute(market: Market, pools: map<Key, PoolState>, hops: seq<RouteHop>, input: u64, i: nat)
    requires i < |hops| && hops[i].pool !in pools
    ensures HopOutputs(market, pools, hops, input).None?
  {
    assert hops[..i + 1][..|hops[..i + 1]| - 1] == hops[..i];
    MissingHopLosesRoute(market, pools, hops, input, i + 1);
  }

  lemma NoHops(market: Market, pools: map<Key, PoolState>, hops: seq<RouteHop>, input: u64)
    ensures HopOutputs(market, pools, hops[..0], input) == Some([])
  {
  }

  /** One more hop: the outputs of the first `n + 1` hops extend those of the first `n`. */
  lemma NextHop(market: Market, pools: map<Key, PoolState>, hops: seq<RouteHop>, input: u64, n: nat, before: seq<u64>,
                aToB: bool, out: u64)
    requires n < |hops| && HopOutputs(market, pools, hops[..n], input) == Some(before)
    requires hops[n].pool in pools && pools[hops[n].pool].IsAToB(hops[n].inputMint) == Some(aToB)
    requires OutputAmount(market, pools[hops[n].pool], FinalOutput(before, input), aToB) == Some(out) && out > 0
    ensures HopOutputs(market, pools, hops[..n + 1], input) == Some(before + [out])
  {
    hide OutputAmount;
    assert hops[..n + 1][..n] == hops[..n];
  }

  lemma UnpaidHop(market: Market, pools: map<Key, PoolState>, hops: seq<RouteHop>, input: u64, n: nat)
    requires n < |hops| && HopOutputs(market, pools, hops[..n], input).Some? && hops[n].pool in pools
    requires var amount := FinalOutput(HopOutputs(market, pools, hops[..n], input).value, input);
             var aToB := pools[hops[n].pool].IsAToB(hops[n].inputMint);
             var out := if aToB.Some? then OutputAmount(market, pools[hops[n].pool], amount, aToB.value) else None;
             out.None? || out.value == 0
    ensures HopOutputs(market, pools, hops[..n + 1], input).None?
  {
    hide OutputAmount;
    assert hops[..n + 1][..n] == hops[..n];
  }

  function AfterSlippage(s: Settings, gross: int): real {
    gross as real * (1.0 - s.slippage)
  }

  function Planned(s: Settings, gross: int): u64 {
    ToU64(AfterSlippage(s, gross))
  }

  function Tip(s: Settings, minTip: u64, gross: int): u64 {
    var fraction := ToU64(Planned(s, gross) as real * s.tipFraction);
    if fraction < minTip then minTip else fraction
  }

  /** What the gates admit: the gross profit planned after slippage must exceed the tip and leave the minimum. */
  predicate Admits(s: Settings, minTip: u64, gross: int) {
    && 0 < gross <= MAX_SANE_PROFIT
    && Tip(s, minTip, gross) < Planned(s, gross)
    && s.minProfit <= Planned(s, gross) - Tip(s, minTip, gross)
  }

  lemma TipHasFloor(s: Settings, minTip: u64, gross: int)
    ensures Tip(s, minTip, gross) >= minTip
  {
  }

  /** The static tip floor or the one polled from the relay, whichever is higher. */
  function EffectiveMinTip(s: Settings, dynamicFloor: Option<u64>): u64 {
    if dynamicFloor.Some? && dynamicFloor.value > s.minTip then dynamicFloor.value else s.minTip
  }

  // ---- What the gates come to ----

  predicate UnitRates(s: Settings) {
    0.0 <= s.slippage <= 1.0 && 0.0 <= s.tipFraction <= 1.0
  }

  /** `n` is `x` rounded down. */
  predicate IsFloor(n: int, x: real) {
    n as real <= x < n as real + 1.0
  }

  /** The gross profit, less slippage and rounded down, is split into a tip and a rest. The tip is the largest of the
      static floor, the polled floor and its fraction of what is split, rounded down. */
  predicate Splits(s: Settings, dynamicFloor: Option<u64>, gross: int, tip: int, rest: int) {
    && IsFloor(tip + rest, gross as real * (1.0 - s.slippage))
    && tip >= s.minTip && (dynamicFloor.Some? ==> tip >= dynamicFloor.value)
    && (tip + rest) as real * s.tipFraction < tip as real + 1.0
    && (tip == s.minTip || (dynamicFloor.Some? && tip == dynamicFloor.value) || tip as real <= (tip + rest) as real * s.tipFraction)
  }

  lemma ToU64IsFloor(x: real, n: u64)
    requires 0.0 <= x <= n as real
    ensures IsFloor(ToU64(x), x) && ToU64(x) <= n
  {
  }

  lemma FloorIsUnique(m: int, n: int, x: real)
    requires IsFloor(m, x) && IsFloor(n, x)
    ensures m == n
  {
  }

  lemma ShareIsNoMore(a: real, f: real, x: real)
    requires x == a * f && 0.0 <= a && 0.0 <= f <= 1.0
    ensures 0.0 <= x <= a
  {
    assert 0.0 <= a * (1.0 - f) == a - x;
  }

  lemma ShareIsFloor(n: u64, f: real, x: real)
    requires x == n as real * f && 0.0 <= f <= 1.0
    ensures IsFloor(ToU64(x), x) && ToU64(x) <= n
  {
    hide ToU64, IsFloor;
    ShareIsNoMore(n as real, f, x);
    ToU64IsFloor(x, n);
  }

  lemma PlannedIsFloor(s: Settings, gross: int)
    requires UnitRates(s) && 0 < gross <= MAX_SANE_PROFIT
    ensures IsFloor(Planned(s, gross), AfterSlippage(s, gross))
    ensures Planned(s, gross) <= gross
  {
    hide ToU64, IsFloor;
    ShareIsFloor(gross, 1.0 - s.slippage, AfterSlippage(s, gross));
  }

  /** The tip's own fraction of the plan. */
  function TipFraction(s: Settings, planned: u64): real {
    planned as real * s.tipFraction
  }

  lemma TipIsLargest(s: Settings, minTip: u64, gross: int)
    requires UnitRates(s)
    ensures var tip, fraction := Tip(s, minTip, gross), TipFraction(s, Planned(s, gross));
            && tip >= minTip && fraction < tip as real + 1.0
            && (tip == minTip || tip as real <= fraction)
  {
    hide Planned;
    var planned := Planned(s, gross);
    ShareIsFloor(planned, s.tipFraction, TipFraction(s, planned));
  }

  /** The plan and the tip of the simulator are the one such split. */
  lemma SplitsExactlyWhen(s: Settings, dynamicFloor: Option<u64>, gross: int, tip: int, rest: int)
    requires UnitRates(s) && 0 < gross <= MAX_SANE_PROFIT
    ensures Splits(s, dynamicFloor, gross, tip, rest) <==>
              tip + rest == Planned(s, gross) && tip == Tip(s, EffectiveMinTip(s, dynamicFloor), gross)
  {
    hide Planned, Tip, ToU64;
    PlannedIsFloor(s, gross);
    TipIsLargest(s, EffectiveMinTip(s, dynamicFloor), gross);
    if IsFloor(tip + rest, AfterSlippage(s, gross)) {
      FloorIsUnique(tip + rest, Planned(s, gross), AfterSlippage(s, gross));
      assert (tip + rest) as real * s.tipFraction == TipFraction(s, Planned(s, gross));
    }
  }

  /** The gates admit a gross profit exactly when it is sane and the rest of its split is positive and at least the
      minimum profit. */
  lemma AdmitsExactlyWhen(s: Settings, dynamicFloor: Option<u64>, gross: int)
    requires UnitRates(s)
    ensures Admits(s, EffectiveMinTip(s, dynamicFloor), gross) <==>
              && 0 < gross <= 10_000_000_000
              && exists tip, rest :: Splits(s, dynamicFloor, gross, tip, rest) && rest > 0 && rest >= s.minProfit
  {
    hide Planned, Tip, Splits;
    if 0 < gross <= MAX_SANE_PROFIT {
      var minTip := EffectiveMinTip(s, dynamicFloor);
      var planned: int, tip: int := Planned(s, gross), Tip(s, minTip, gross);
      SplitsExactlyWhen(s, dynamicFloor, gross, tip, planned - tip);
      forall t, r | Splits(s, dynamicFloor, gross, t, r) ensures t == tip && r == planned - tip {
        SplitsExactlyWhen(s, dynamicFloor, gross, t, r);
      }
    }
  }

  /** Without slippage the whole gross profit is split; at full slippage nothing is ever admitted. */
  lemma SlippageExtremes(s: Settings, dynamicFloor: Option<u64>, gross: int, tip: int, rest: int)
    requires UnitRates(s)
    ensures s.slippage == 0.0 && Splits(s, dynamicFloor, gross, tip, rest) ==> tip + rest == gross
    ensures s.slippage == 1.0 ==> !Admits(s, EffectiveMinTip(s, dynamicFloor), gross)
  {
    if s.slippage == 1.0 && 0 < gross <= MAX_SANE_PROFIT {
      PlannedIsFloor(s, gross);
      assert AfterSlippage(s, gross) == 0.0;
    }
  }

  method Simulate(market: Market, pools: map<Key, PoolState>, s: Settings, dynamicFloor: Option<u64>, route: ArbRoute)
    returns (v: Verdict)
    ensures var outputs := HopOutputs(market, pools, route.hops, route.inputAmount);
            var minTip := EffectiveMinTip(s, dynamicFloor);
            && (v.Profitable? <==>
                  outputs.Some? && Admits(s, minTip, FinalOutput(outputs.value, route.inputAmount) - route.inputAmount))
            && (v.Profitable? ==>
                  var gross := FinalOutput(outputs.value, route.inputAmount) - route.inputAmount;
                  && v.netProfit == gross
                  && minTip <= v.tip && v.tip + v.finalProfit == Planned(s, gross) && s.minProfit <= v.finalProfit
                  && (UnitRates(s) ==> Splits(s, dynamicFloor, gross, v.tip, v.finalProfit))
                  && v.minFinalOutput == route.inputAmount
                  && v.route.inputAmount == route.inputAmount && v.route.baseMint == route.baseMint
                  && v.route.estimatedProfit == gross == v.route.estimatedProfitLamports
                  && |v.route.hops| == |route.hops|
                  && forall i :: 0 <= i < |route.hops| ==>
                       v.route.hops[i] == route.hops[i].(estimatedOutput := outputs.value[i]))
  {
    hide OutputAmount, Planned, Tip, EffectiveMinTip, ToU64, HopOutputs, Splits;
    NoHops(market, pools, route.hops, route.inputAmount);
    var i := 0;
    while i < |route.hops|
      invariant 0 <= i <= |route.hops|
      invariant forall j :: 0 <= j < i ==> route.hops[j].pool in pools
    {
      if route.hops[i].pool !in pools {
        MissingPoolLosesRoute(market, pools, route.hops, route.inputAmount, i);
        return Unprofitable;
      }
      i := i + 1;
    }

    var currentAmount, freshOutputs: seq<u64> := route.inputAmount, [];
    i := 0;
    while i < |route.hops|
      invariant 0 <= i == |freshOutputs| <= |route.hops|
      invariant HopOutputs(market, pools, route.hops[..i], route.inputAmount) == Some(freshOutputs)
      invariant currentAmount == FinalOutput(freshOutputs, route.inputAmount)
    {
      var hop := route.hops[i];
      var aToB := pools[hop.pool].IsAToB(hop.inputMint);
      var out := if aToB.Some? then OutputAmount(market, pools[hop.pool], currentAmount, aToB.value) else None;
      if out.None? || out.value == 0 {
        UnpaidHop(market, pools, route.hops, route.inputAmount, i);
        MissingHopLosesRoute(market, pools, route.hops, route.inputAmount, i + 1);
        return Unprofitable;
      }
      currentAmount := out.value;
      NextHop(market, pools, route.hops, route.inputAmount, i, freshOutputs, aToB.value, currentAmount);
      freshOutputs := freshOutputs + [currentAmount];
      i := i + 1;
    }
    assert route.hops[..i] == route.hops;

    var grossProfit := currentAmount - route.inputAmount;
    if grossProfit <= 0 { return Unprofitable; }
    if grossProfit > MAX_SANE_PROFIT { return Unprofitable; }
    var planned := Planned(s, grossProfit);
    var tip := Tip(s, EffectiveMinTip(s, dynamicFloor), grossProfit);
    TipHasFloor(s, EffectiveMinTip(s, dynamicFloor), grossProfit);
    if UnitRates(s) { SplitsExactlyWhen(s, dynamicFloor, grossProfit, tip, (planned as int) - tip); }
    if tip >= planned { return Unprofitable; }
    var finalProfit := SaturatingSub(planned, tip);
    if finalProfit < s.minProfit { return Unprofitable; }

    var hops := route.hops;
    i := 0;
    while i < |route.hops|
      invariant 0 <= i <= |route.hops| == |hops|
      invariant forall j :: 0 <= j < |hops| ==>
        hops[j] == if j < i then route.hops[j].(estimatedOutput := freshOutputs[j]) else route.hops[j]
    {
      hops := hops[i := hops[i].(estimatedOutput := freshOutputs[i])];
      i := i + 1;
    }
    var freshRoute := route.(hops := hops, estimatedProfit := grossProfit, estimatedProfitLamports := grossProfit);
    return Profitable(freshRoute, grossProfit, tip, finalProfit, route.inputAmount);
  }

  // ---- The fold, read from the front ----

  /** What a chain of pools pays, each pool given the mint it is to be paid in: the first pool is quoted first, and the
      rest goes on from what it pays, if it pays anything. */
  function PaidAlong(market: Market, pools: seq<PoolState>, mints: seq<Key>, input: u64): (paid: Option<seq<u64>>)
    requires |pools| == |mints|
    ensures paid.Some? ==> |paid.value| == |pools|
  {
    if pools == [] then Some([]) else
    var aToB :- pools[0].IsAToB(mints[0]);
    var out :- OutputAmount(market, pools[0], input, aToB);
    if out == 0 then None else
    var rest :- PaidAlong(market, pools[1..], mints[1..], out);
    Some([out] + rest)
  }

  lemma AppendTail(market: Market, pools: seq<PoolState>, mints: seq<Key>, p: PoolState, m: Key, input: u64, out: u64)
    requires |pools| == |mints| > 0
    ensures var rest := PaidAlong(market, pools[1..], mints[1..], out);
            rest.Some? ==>
              && FinalOutput([out] + rest.value, input) == FinalOutput(rest.value, out)
              && forall last: seq<u64> :: [out] + (rest.value + last) == ([out] + rest.value) + last
  {
    hide OutputAmount, PaidAlong;
  }

  lemma {:induction false} PaidAlongAppend(market: Market, pools: seq<PoolState>, mints: seq<Key>, p: PoolState, m: Key, input: u64)
    requires |pools| == |mints|
    ensures PaidAlong(market, pools + [p], mints + [m], input) ==
            var before := PaidAlong(market, pools, mints, input);
            if before.None? then None else
            var last := PaidAlong(market, [p], [m], FinalOutput(before.value, input));
            if last.None? then None else Some(before.value + last.value)
  {
    hide OutputAmount;
    if pools == [] {
      assert pools + [p] == [p] && mints + [m] == [m];
      var last := PaidAlong(market, [p], [m], input);
      if last.Some? { assert [] + last.value == last.value; }
    } else {
      assert (pools + [p])[1..] == pools[1..] + [p] && (mints + [m])[1..] == mints[1..] + [m];
      var aToB := pools[0].IsAToB(mints[0]);
      var out := if aToB.Some? then OutputAmount(market, pools[0], input, aToB.value) else None;
      if out.Some? && out.value > 0 {
        PaidAlongAppend(market, pools[1..], mints[1..], p, m, out.value);
        AppendTail(market, pools, mints, p, m, input, out.value);
      }
    }
  }

  lemma PaidByOne(market: Market, p: PoolState, m: Key, input: u64)
    ensures PaidAlong(market, [p], [m], input) ==
            var aToB := p.IsAToB(m);
            var out := if aToB.Some? then OutputAmount(market, p, input, aToB.value) else None;
            if out.Some? && out.value > 0 then Some([out.value]) else None
  {
    hide OutputAmount;
    assert [p][1..] == [] && [m][1..] == [];
    var aToB := p.IsAToB(m);
    var out := if aToB.Some? then OutputAmount(market, p, input, aToB.value) else None;
    if out.Some? {
      assert PaidAlong(market, [p][1..], [m][1..], out.value) == Some([]);
      assert [out.value] + [] == [out.value];
    }
  }

  function PoolsOf(pools: map<Key, PoolState>, hops: seq<RouteHop>): seq<PoolState>
    requires forall i :: 0 <= i < |hops| ==> hops[i].pool in pools
  {
    seq(|hops|, i requires 0 <= i < |hops| => pools[hops[i].pool])
  }

  function MintsOf(hops: seq<RouteHop>): seq<Key> {
    seq(|hops|, i requires 0 <= i < |hops| => hops[i].inputMint)
  }

  /** The simulator's outputs are what the route's pools pay along it, and none exactly if a pool is missing or does not
      pay. */
  lemma {:induction false} HopOutputsIsPaidAlong(market: Market, pools: map<Key, PoolState>, hops: seq<RouteHop>, input: u64)
    ensures HopOutputs(market, pools, hops, input) ==
            if forall i :: 0 <= i < |hops| ==> hops[i].pool in pools
            then PaidAlong(market, PoolsOf(pools, hops), MintsOf(hops), input) else None
  {
    hide OutputAmount;
    if i :| 0 <= i < |hops| && hops[i].pool !in pools {
      MissingPoolLosesRoute(market, pools, hops, input, i);
    } else if hops == [] {
    } else {
      var init, last := hops[..|hops| - 1], hops[|hops| - 1];
      HopOutputsIsPaidAlong(market, pools, init, input);
      assert PoolsOf(pools, hops) == PoolsOf(pools, init) + [pools[last.pool]];
      assert MintsOf(hops) == MintsOf(init) + [last.inputMint];
      PaidAlongAppend(market, PoolsOf(pools, init), MintsOf(init), pools[last.pool], last.inputMint, input);
      var before := HopOutputs(market, pools, init, input);
      if before.Some? {
        PaidByOne(market, pools[last.pool], last.inputMint, FinalOutput(before.value, input));
      }
    }
  }

  // ---- No false arbitrage ----

  predicate IsConstantProduct(d: DexType) {
    d.RaydiumAmm? || d.RaydiumCp? || d.PumpSwap?
  }

  /** The legs of a route through constant-product pools. */
  function Legs(pools: map<Key, PoolState>, hops: seq<RouteHop>): seq<ConstantProduct.Leg>
    requires forall h :: h in hops ==> h.pool in pools
  {
    seq(|hops|, i requires 0 <= i < |hops| =>
      assert hops[i] in hops;
      var p := pools[hops[i].pool];
      if p.mintA == hops[i].inputMint then ConstantProduct.Leg(p.reserveA, p.reserveB, p.feeBps)
      else ConstantProduct.Leg(p.reserveB, p.reserveA, p.feeBps))
  }

  lemma {:induction false} ChainAppend(legs: seq<ConstantProduct.Leg>, last: ConstantProduct.Leg, input: u64)
    ensures ConstantProduct.Chain(legs + [last], input) ==
            var y := ConstantProduct.Chain(legs, input);
            if y.None? then None else ConstantProduct.Chain([last], y.value)
  {
    hide ConstantProduct.Quote;
    if legs == [] {
      assert legs + [last] == [last];
    } else {
      assert (legs + [last])[1..] == legs[1..] + [last];
      var out := ConstantProduct.Quote(legs[0].reserveIn, legs[0].reserveOut, legs[0].feeBps, input);
      if out.Some? { ChainAppend(legs[1..], last, out.value); }
    }
  }

  lemma {:induction false} SimulatorFoldsChain(market: Market, pools: map<Key, PoolState>, hops: seq<RouteHop>, input: u64)
    requires forall h :: h in hops ==> h.pool in pools && IsConstantProduct(pools[h.pool].dexType)
    requires HopOutputs(market, pools, hops, input).Some? && input > 0
    ensures ConstantProduct.Chain(Legs(pools, hops), input)
         == Some(FinalOutput(HopOutputs(market, pools, hops, input).value, input))
    ensures FinalOutput(HopOutputs(market, pools, hops, input).value, input) > 0
  {
    hide ConstantProduct.Quote;
    if hops == [] {
    } else {
      var init, last := hops[..|hops| - 1], hops[|hops| - 1];
      assert last in hops && forall h :: h in init ==> h in hops;
      SimulatorFoldsChain(market, pools, init, input);
      assert Legs(pools, hops) == Legs(pools, init) + [Legs(pools, hops)[|hops| - 1]];
      ChainAppend(Legs(pools, init), Legs(pools, hops)[|hops| - 1], input);
    }
  }

  lemma ZeroInputLosesRoute(market: Market, pools: map<Key, PoolState>, hops: seq<RouteHop>)
    requires hops != []
    ensures HopOutputs(market, pools, hops, 0).None?
  {
    assert hops[..1][..0] == [];
    MissingHopLosesRoute(market, pools, hops, 0, 1);
  }

  /** Around a route of constant-product pools whose spot prices multiply to at most 1, the simulator never finds a
      profit to send, for any input and any settings. */
  lemma FairCycleIsNeverSent(market: Market, pools: map<Key, PoolState>, hops: seq<RouteHop>, input: u64, s: Settings, minTip: u64)
    requires forall h :: h in hops ==> h.pool in pools && IsConstantProduct(pools[h.pool].dexType)
    requires ConstantProduct.ProductOut(Legs(pools, hops)) <= ConstantProduct.ProductIn(Legs(pools, hops))
    ensures var outputs := HopOutputs(market, pools, hops, input);
            !(outputs.Some? && Admits(s, minTip, FinalOutput(outputs.value, input) - input))
  {
    var outputs := HopOutputs(market, pools, hops, input);
    if outputs.Some? && hops != [] {
      if input == 0 {
        ZeroInputLosesRoute(market, pools, hops);
      } else {
        SimulatorFoldsChain(market, pools, hops, input);
        ConstantProduct.NoFalseArbitrage(Legs(pools, hops), input);
      }
    }
  }
}
