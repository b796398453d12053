/** What the multi-tick walk keeps at every iteration, and when it is the single-range quote. */
module TickWalkLaws {
  import opened Machine
  import opened SwapStep
  import opened TickWalk

  /** What is assumed of the tick-to-price conversion. */
  ghost predicate Increasing(sqrtAt: PriceTable) {
    && (forall t :: -MAX_TICK <= t <= MAX_TICK ==> MIN_SQRT_PRICE <= sqrtAt(t) <= MAX_SQRT_PRICE)
    && (forall s, t :: -MAX_TICK <= s < t <= MAX_TICK ==> sqrtAt(s) < sqrtAt(t))
  }

  // ---- Conservation, price direction and exact totals ----

  /** The swap that visiting `tick` performs, if it performs one. */
  function Swap(sqrtAt: PriceTable, w: Walk, tick: Tick, aToB: bool): seq<Step> {
    var target := TickPrice(sqrtAt, tick.index);
    if target.None? || NotAhead(target.value, w.price, aToB) || w.liquidity == 0 then [] else
    match ComputeSwapStep(w.price, target.value, w.liquidity, w.remaining, aToB)
    case None => []
    case Some(step) => [step]
  }

  /** The swaps performed by the first `n` iterations. */
  function Swaps(sqrtAt: PriceTable, path: seq<Tick>, start: Walk, aToB: bool, n: nat): seq<Step>
    requires n <= |path|
  {
    if n == 0 then [] else
    var before := Swaps(sqrtAt, path, start, aToB, n - 1);
    match WalkAt(sqrtAt, path, start, aToB, n - 1)
    case None => before
    case Some(w) =>
      if w.remaining == 0 || n - 1 >= MAX_STEPS then before
      else before + Swap(sqrtAt, w, path[n - 1], aToB)
  }

  function TotalIn(steps: seq<Step>): nat {
    if steps == [] then 0 else TotalIn(steps[..|steps| - 1]) + steps[|steps| - 1].amountIn
  }

  function TotalOut(steps: seq<Step>): nat {
    if steps == [] then 0 else TotalOut(steps[..|steps| - 1]) + steps[|steps| - 1].amountOut
  }

  const TWO_96: int := 0x1_0000_0000_0000_0000_0000_0000

  /** From a price of at least the minimum, one swap pays less than 2^96, so 51 of them cannot overflow. */
  lemma OneSwapOutputBound(current: u128, target: u128, liquidity: u128, remaining: u128, aToB: bool)
    requires MIN_SQRT_PRICE <= current
    ensures match ComputeSwapStep(current, target, liquidity, remaining, aToB)
            case None => true
            case Some(s) => s.amountOut < TWO_96
  {
    if ComputeSwapStep(current, target, liquidity, remaining, aToB).None? { return; }
    StepContained(current, target, liquidity, remaining, aToB);
    var s := ComputeSwapStep(current, target, liquidity, remaining, aToB).value;
    if aToB {
      QuotientBelow(liquidity * (current - s.next), Q64, TWO_96);
    } else {
      var scaled := (liquidity * (s.next - current) / current) * Q64;
      assert s.amountOut == scaled / s.next && scaled <= U128_MAX;
      QuotientAntitone(scaled, MIN_SQRT_PRICE, s.next);
      QuotientBelow(scaled, MIN_SQRT_PRICE, TWO_96);
    }
  }

  lemma AddOutputExact(a: u128, b: u128)
    requires a + b <= U128_MAX
    ensures AddOutput(a, b) == a + b
  {
  }

  /** The facts every iteration keeps, for any ticks whatever. */
  ghost predicate Sound(start: Walk, w: Walk, swaps: seq<Step>, aToB: bool, n: nat) {
    && MIN_SQRT_PRICE <= w.price <= MAX_SQRT_PRICE
    && (if aToB then w.price <= start.price else start.price <= w.price)
    && |swaps| <= n && |swaps| <= MAX_STEPS
    && w.remaining + TotalIn(swaps) == start.remaining
    && w.output == start.output + TotalOut(swaps)
    && TotalOut(swaps) <= |swaps| * TWO_96
  }

  lemma TotalsAppend(steps: seq<Step>, step: Step)
    ensures TotalIn(steps + [step]) == TotalIn(steps) + step.amountIn
    ensures TotalOut(steps + [step]) == TotalOut(steps) + step.amountOut
  {
    assert (steps + [step])[..|steps + [step]| - 1] == steps;
  }

  /** A swap accounts for what its visit does to the walk. */
  lemma SwapMovesWalk(sqrtAt: PriceTable, w: Walk, tick: Tick, aToB: bool)
    requires Increasing(sqrtAt) && MIN_SQRT_PRICE <= w.price <= MAX_SQRT_PRICE
    requires VisitTick(sqrtAt, w, tick, aToB).Some?
    ensures var v := VisitTick(sqrtAt, w, tick, aToB).value;
            && MIN_SQRT_PRICE <= v.price <= MAX_SQRT_PRICE && (if aToB then v.price <= w.price else w.price <= v.price)
            && var made := Swap(sqrtAt, w, tick, aToB);
            if made == [] then v.remaining == w.remaining && v.output == w.output
            else
              && |made| == 1 && made[0].amountOut < TWO_96
              && v.remaining + made[0].amountIn == w.remaining && v.output == AddOutput(w.output, made[0].amountOut)
  {
    hide ComputeSwapStep, Cross, AddOutput;
    var made := Swap(sqrtAt, w, tick, aToB);
    if made != [] {
      var target := TickPrice(sqrtAt, tick.index).value;
      StepContained(w.price, target, w.liquidity, w.remaining, aToB);
      OneSwapOutputBound(w.price, target, w.liquidity, w.remaining, aToB);
    }
  }

  lemma VisitKeepsSound(sqrtAt: PriceTable, start: Walk, w: Walk, swaps: seq<Step>, tick: Tick, aToB: bool, n: nat)
    requires Increasing(sqrtAt) && start.output == 0
    requires Sound(start, w, swaps, aToB, n) && n < MAX_STEPS
    requires VisitTick(sqrtAt, w, tick, aToB).Some?
    ensures Sound(start, VisitTick(sqrtAt, w, tick, aToB).value, swaps + Swap(sqrtAt, w, tick, aToB), aToB, n + 1)
  {
    hide VisitTick, Swap, AddOutput, TotalIn, TotalOut, Increasing;
    var made := Swap(sqrtAt, w, tick, aToB);
    SwapMovesWalk(sqrtAt, w, tick, aToB);
    if made == [] {
      assert swaps + made == swaps;
    } else {
      assert made == [made[0]];
      TotalsAppend(swaps, made[0]);
      AddOutputExact(w.output, made[0].amountOut);
    }
  }

  /** At every iteration: consumed input and remaining input add up to the after-fee input, the output is the
      exact sum of what the swaps paid (the u128 addition never wraps), the price stays in bounds and has only
      moved in the swap direction, and at most 50 swaps were made. */
  lemma {:induction false} WalkIsSound(sqrtAt: PriceTable, path: seq<Tick>, start: Walk, aToB: bool, n: nat)
    requires Increasing(sqrtAt) && n <= |path|
    requires MIN_SQRT_PRICE <= start.price <= MAX_SQRT_PRICE && start.output == 0
    ensures match WalkAt(sqrtAt, path, start, aToB, n)
            case None => true
            case Some(w) => Sound(start, w, Swaps(sqrtAt, path, start, aToB, n), aToB, n)
  {
    if n == 0 {
    } else if WalkAt(sqrtAt, path, start, aToB, n).Some? {
      WalkIsSound(sqrtAt, path, start, aToB, n - 1);
      var w := WalkAt(sqrtAt, path, start, aToB, n - 1).value;
      if w.remaining > 0 && n - 1 < MAX_STEPS {
        VisitKeepsSound(sqrtAt, start, w, Swaps(sqrtAt, path, start, aToB, n - 1), path[n - 1], aToB, n - 1);
      }
    }
  }

  /** Price only moves one way from any iteration to any later one. */
  lemma {:induction false} PriceMovesOneWay(sqrtAt: PriceTable, path: seq<Tick>, start: Walk, aToB: bool, n: nat, m: nat)
    requires n <= m <= |path|
    ensures var earlier, later := WalkAt(sqrtAt, path, start, aToB, n), WalkAt(sqrtAt, path, start, aToB, m);
            later.Some? ==>
              earlier.Some? && if aToB then later.value.price <= earlier.value.price
                               else earlier.value.price <= later.value.price
  {
    hide ComputeSwapStep, Cross, AddOutput;
    if n == m {
    } else if WalkAt(sqrtAt, path, start, aToB, m).Some? {
      PriceMovesOneWay(sqrtAt, path, start, aToB, n, m - 1);
      var w := WalkAt(sqrtAt, path, start, aToB, m - 1).value;
      var swap := Swap(sqrtAt, w, path[m - 1], aToB);
      if w.remaining > 0 && m - 1 < MAX_STEPS && swap != [] {
        StepContained(w.price, TickPrice(sqrtAt, path[m - 1].index).value, w.liquidity, w.remaining, aToB);
      }
    }
  }

  /** The output of a walk never decreases, and stays small. */
  lemma OutputGrows(sqrtAt: PriceTable, path: seq<Tick>, start: Walk, aToB: bool, n: nat)
    requires Increasing(sqrtAt) && n < |path| && n < MAX_STEPS
    requires MIN_SQRT_PRICE <= start.price <= MAX_SQRT_PRICE && start.output == 0
    requires WalkAt(sqrtAt, path, start, aToB, n + 1).Some?
    ensures WalkAt(sqrtAt, path, start, aToB, n).Some?
    ensures WalkAt(sqrtAt, path, start, aToB, n).value.output <= WalkAt(sqrtAt, path, start, aToB, n + 1).value.output
    ensures WalkAt(sqrtAt, path, start, aToB, n).value.output <= MAX_STEPS * TWO_96
  {
    WalkIsSound(sqrtAt, path, start, aToB, n);
    WalkIsSound(sqrtAt, path, start, aToB, n + 1);
    var w := WalkAt(sqrtAt, path, start, aToB, n).value;
    var before, made := Swaps(sqrtAt, path, start, aToB, n), Swap(sqrtAt, w, path[n], aToB);
    if w.remaining > 0 && made != [] {
      assert (before + made)[..|before + made| - 1] == before;
    } else {
      assert before + made == before || w.remaining == 0;
    }
  }

  // ---- With no tick ahead the walk is the single-range quote ----

  lemma StandingStillPaysNothing(price: u128, liquidity: u128, aToB: bool)
    requires AmountOut(price, price, liquidity, aToB).Some?
    ensures AmountOut(price, price, liquidity, aToB) == Some(0)
  {
  }

  /** With no initialized tick ahead and a last swap that stops short of the limit, the two quotes agree
      exactly when that swap moves the price at all; otherwise the walk says 0 and the single range says nothing. */
  lemma EmptyPathIsSingleRange(sqrtAt: PriceTable, feeBps: u64, currentTick: int, price: u128, liquidity: u128,
                               arrays: seq<TickArray>, input: u64, aToB: bool)
    requires Path(arrays, currentTick, aToB) == [] && liquidity > 0
    requires AfterFee(input, feeBps).Some?
    requires var amount := AfterFee(input, feeBps).value;
             var end := Walk(amount, 0, price, liquidity);
             amount > 0 ==>
               && LastStep(end, aToB).Some?
               && amount < MaxIn(price, if aToB then MIN_SQRT_PRICE else MAX_SQRT_PRICE, liquidity, aToB).value
    ensures var multi := MultiTickOutput(sqrtAt, feeBps, currentTick, price, liquidity, arrays, input, aToB);
            var single := SingleRangeOutput(feeBps, price, liquidity, input, aToB);
            var amount := AfterFee(input, feeBps).value;
            && (multi == single <==>
                  amount == 0 || LastStep(Walk(amount, 0, price, liquidity), aToB).value.next != price)
            && (multi != single ==> multi == Some(0) && single == None)
  {
    hide AmountOut, PartialPrice, MaxIn, AfterFee;
    var amount := AfterFee(input, feeBps).value;
    if amount > 0 {
      var limit := if aToB then MIN_SQRT_PRICE else MAX_SQRT_PRICE;
      StepContained(price, limit, liquidity, amount, aToB);
      var step := ComputeSwapStep(price, limit, liquidity, amount, aToB).value;
      if step.next == price { StandingStillPaysNothing(price, liquidity, aToB); }
    }
  }
}
