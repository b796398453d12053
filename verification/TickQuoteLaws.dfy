/** How two multi-tick quotes for inputs of different size compare, in both directions. */
module TickQuoteLaws {
  import opened Machine
  import opened SwapStep
  import opened TickWalk
  import opened TickWalkLaws
  import opened Pool

  // ---- Two walks go in step until the smaller input is used up ----

  ghost predicate InStep(small: Walk, large: Walk) {
    small.(remaining := large.remaining) == large && small.remaining <= large.remaining
  }

  /** One visit in step: the walks stay in step, or the smaller input is used up in a swap of this range. */
  lemma VisitParts(sqrtAt: PriceTable, a: Walk, b: Walk, tick: Tick, aToB: bool)
    requires InStep(a, b) && a.remaining > 0
    ensures match (VisitTick(sqrtAt, a, tick, aToB), VisitTick(sqrtAt, b, tick, aToB))
            case (Some(v), Some(w)) => InStep(v, w) || v.remaining == 0
            case _ => true
  {
    hide ComputeSwapStep, Cross, AddOutput;
    var target := TickPrice(sqrtAt, tick.index);
    if target.Some? {
      StepsPart(a.price, target.value, a.liquidity, a.remaining, b.remaining, aToB);
    }
  }

  /** The iteration where two walks part: in step up to it, after it the smaller input is used up and the larger
      trade only goes on adding output. If it is `n` itself, they have not parted yet. */
  lemma {:induction false} WalksPart(sqrtAt: PriceTable, path: seq<Tick>, small: Walk, large: Walk, aToB: bool, n: nat) returns (m: nat)
    requires Increasing(sqrtAt) && n <= |path|
    requires MIN_SQRT_PRICE <= small.price <= MAX_SQRT_PRICE && small.output == 0 && InStep(small, large)
    requires WalkAt(sqrtAt, path, small, aToB, n).Some? && WalkAt(sqrtAt, path, large, aToB, n).Some?
    ensures m <= n && WalkAt(sqrtAt, path, small, aToB, m).Some? && WalkAt(sqrtAt, path, large, aToB, m).Some?
    ensures InStep(WalkAt(sqrtAt, path, small, aToB, m).value, WalkAt(sqrtAt, path, large, aToB, m).value)
    ensures m < n ==>
              && m < MAX_STEPS
              && WalkAt(sqrtAt, path, small, aToB, m + 1).Some? && WalkAt(sqrtAt, path, large, aToB, m + 1).Some?
              && WalkAt(sqrtAt, path, small, aToB, m + 1).value.remaining == 0
              && WalkAt(sqrtAt, path, small, aToB, n) == WalkAt(sqrtAt, path, small, aToB, m + 1)
              && WalkAt(sqrtAt, path, large, aToB, m + 1).value.output <= WalkAt(sqrtAt, path, large, aToB, n).value.output
  {
    hide VisitTick;
    m := n;
    if n == 0 {
    } else {
      var k := WalksPart(sqrtAt, path, small, large, aToB, n - 1);
      var a, b := WalkAt(sqrtAt, path, small, aToB, n - 1).value, WalkAt(sqrtAt, path, large, aToB, n - 1).value;
      if n - 1 < MAX_STEPS {
        OutputGrows(sqrtAt, path, large, aToB, n - 1);
      }
      if k < n - 1 {
        m := k;
      } else if !InStep(WalkAt(sqrtAt, path, small, aToB, n).value, WalkAt(sqrtAt, path, large, aToB, n).value) {
        if a.remaining > 0 { VisitParts(sqrtAt, a, b, path[n - 1], aToB); }
        m := n - 1;
      }
    }
  }

  /** What one range pays two trades in step: the same, or the outputs of two steps from one state, of which the
      smaller one is used up. */
  ghost predicate Pays(current: u128, target: u128, liquidity: u128, r1: u128, r2: u128, aToB: bool, paid1: nat, paid2: nat) {
    var step1 := ComputeSwapStep(current, target, liquidity, r1, aToB);
    var step2 := ComputeSwapStep(current, target, liquidity, r2, aToB);
    step1.Some? && step2.Some? && paid1 == step1.value.amountOut && paid2 == step2.value.amountOut
  }

  lemma VisitPays(sqrtAt: PriceTable, a: Walk, b: Walk, tick: Tick, aToB: bool)
    requires InStep(a, b) && MIN_SQRT_PRICE <= a.price && a.output <= MAX_STEPS * TWO_96
    requires VisitTick(sqrtAt, a, tick, aToB).Some? && VisitTick(sqrtAt, b, tick, aToB).Some?
    ensures var v, w := VisitTick(sqrtAt, a, tick, aToB).value, VisitTick(sqrtAt, b, tick, aToB).value;
            || v.output == w.output
            || (a.output <= v.output && a.output <= w.output
                && Pays(a.price, sqrtAt(tick.index), a.liquidity, a.remaining, b.remaining, aToB,
                        v.output - a.output, w.output - a.output))
  {
    hide ComputeSwapStep, Cross, AddOutput;
    var target := TickPrice(sqrtAt, tick.index).value;
    if !NotAhead(target, a.price, aToB) && a.liquidity > 0 {
      OneSwapOutputBound(a.price, target, a.liquidity, a.remaining, aToB);
      OneSwapOutputBound(a.price, target, a.liquidity, b.remaining, aToB);
      AddOutputExact(a.output, ComputeSwapStep(a.price, target, a.liquidity, a.remaining, aToB).value.amountOut);
      AddOutputExact(b.output, ComputeSwapStep(a.price, target, a.liquidity, b.remaining, aToB).value.amountOut);
    }
  }

  // ---- The last range ----

  ghost predicate LastStepQuotes(w: Walk, aToB: bool) {
    w.remaining > 0 && w.liquidity > 0 ==> LastStep(w, aToB).Some?
  }

  function Limit(aToB: bool): u128 {
    if aToB then MIN_SQRT_PRICE else MAX_SQRT_PRICE
  }

  lemma LastRangeGrows(w: Walk, aToB: bool)
    requires w.output <= MAX_STEPS * TWO_96 && MIN_SQRT_PRICE <= w.price
    ensures w.output <= LastRange(w, aToB)
    ensures w.remaining == 0 || w.liquidity == 0 ==> LastRange(w, aToB) == w.output && LastStepQuotes(w, aToB)
    ensures LastRange(w, aToB) != w.output ==> w.remaining > 0 && w.liquidity > 0 && LastStep(w, aToB).Some?
    ensures w.remaining > 0 && w.liquidity > 0 && LastStep(w, aToB).Some? ==>
              LastRange(w, aToB) == w.output + LastStep(w, aToB).value.amountOut
  {
    hide ComputeSwapStep, AddOutput;
    if w.remaining > 0 && w.liquidity > 0 && LastStep(w, aToB).Some? {
      OneSwapOutputBound(w.price, Limit(aToB), w.liquidity, w.remaining, aToB);
      AddOutputExact(w.output, LastStep(w, aToB).value.amountOut);
    }
  }

  /** Where the walk of a quote ends. */
  function EndOfWalk(sqrtAt: PriceTable, feeBps: u64, currentTick: int, price: u128, liquidity: u128,
                     arrays: seq<TickArray>, input: u64, aToB: bool): Option<Walk> {
    var amount :- AfterFee(input, feeBps);
    var path := Path(arrays, currentTick, aToB);
    WalkAt(sqrtAt, path, Walk(amount, 0, price, liquidity), aToB, |path|)
  }

  lemma AfterFeeMonotone(feeBps: u64, x: u64, y: u64)
    requires x <= y && AfterFee(x, feeBps).Some? && AfterFee(y, feeBps).Some?
    ensures AfterFee(x, feeBps).value <= AfterFee(y, feeBps).value
  {
    var keep := 1_000_000 - feeBps * 100;
    MulMono(x, y, keep);
    QuotientMono(x * keep, y * keep, 1_000_000);
  }

  /** A quote is the last range of the end of its walk; an input the fee uses up ends where it starts. */
  lemma QuoteIsLastRange(sqrtAt: PriceTable, feeBps: u64, currentTick: int, price: u128, liquidity: u128,
                         arrays: seq<TickArray>, input: u64, aToB: bool)
    requires MultiTickOutput(sqrtAt, feeBps, currentTick, price, liquidity, arrays, input, aToB).Some?
    ensures var end := EndOfWalk(sqrtAt, feeBps, currentTick, price, liquidity, arrays, input, aToB);
            && AfterFee(input, feeBps).Some? && end.Some?
            && MultiTickOutput(sqrtAt, feeBps, currentTick, price, liquidity, arrays, input, aToB)
                 == Some(LastRange(end.value, aToB))
  {
    hide VisitTick, ComputeSwapStep;
    var amount := AfterFee(input, feeBps).value;
    if amount == 0 {
      var path := Path(arrays, currentTick, aToB);
      WalkSettled(sqrtAt, path, Walk(0, 0, price, liquidity), aToB, 0, |path|);
    }
  }

  /** A quote is exactly what its swaps pay: those of the walk, and the one in the last range if it is made. */
  lemma QuoteIsSumOfSwaps(sqrtAt: PriceTable, feeBps: u64, currentTick: int, price: u128, liquidity: u128,
                          arrays: seq<TickArray>, input: u64, aToB: bool)
    requires Increasing(sqrtAt) && MIN_SQRT_PRICE <= price <= MAX_SQRT_PRICE
    ensures var path := Path(arrays, currentTick, aToB);
            match MultiTickOutput(sqrtAt, feeBps, currentTick, price, liquidity, arrays, input, aToB)
            case None => true
            case Some(out) =>
              && AfterFee(input, feeBps).Some?
              && var start := Walk(AfterFee(input, feeBps).value, 0, price, liquidity);
              && WalkAt(sqrtAt, path, start, aToB, |path|).Some?
              && var end := WalkAt(sqrtAt, path, start, aToB, |path|).value;
              && var last := ComputeSwapStep(end.price, if aToB then MIN_SQRT_PRICE else MAX_SQRT_PRICE, end.liquidity,
                                             end.remaining, aToB);
              out == TotalOut(Swaps(sqrtAt, path, start, aToB, |path|))
                     + if end.remaining > 0 && end.liquidity > 0 && last.Some? then last.value.amountOut else 0
  {
    hide MultiTickOutput, LastRange, ComputeSwapStep, VisitTick;
    if MultiTickOutput(sqrtAt, feeBps, currentTick, price, liquidity, arrays, input, aToB).Some? {
      QuoteIsLastRange(sqrtAt, feeBps, currentTick, price, liquidity, arrays, input, aToB);
      var path := Path(arrays, currentTick, aToB);
      var start := Walk(AfterFee(input, feeBps).value, 0, price, liquidity);
      WalkIsSound(sqrtAt, path, start, aToB, |path|);
      LastRangeGrows(WalkAt(sqrtAt, path, start, aToB, |path|).value, aToB);
    }
  }

  // ---- Selling: a larger sale yields no less, exactly when ----

  lemma RangePaysSaleNoLess(current: u128, target: u128, liquidity: u128, r1: u128, r2: u128, paid1: nat, paid2: nat)
    requires r1 <= r2 && Pays(current, target, liquidity, r1, r2, true, paid1, paid2)
    ensures paid1 <= paid2
  {
    hide ComputeSwapStep;
    StepMonotone(current, target, liquidity, r1, r2);
  }

  /** At the iteration where two walks part, the smaller trade is already used up, or both visit the tick. */
  lemma PartedVisit(sqrtAt: PriceTable, path: seq<Tick>, small: Walk, large: Walk, aToB: bool, m: nat)
    requires Increasing(sqrtAt) && m < |path| && m < MAX_STEPS
    requires MIN_SQRT_PRICE <= small.price <= MAX_SQRT_PRICE && small.output == 0 && InStep(small, large)
    requires WalkAt(sqrtAt, path, small, aToB, m + 1).Some? && WalkAt(sqrtAt, path, large, aToB, m + 1).Some?
    requires InStep(WalkAt(sqrtAt, path, small, aToB, m).value, WalkAt(sqrtAt, path, large, aToB, m).value)
    ensures var a, b := WalkAt(sqrtAt, path, small, aToB, m).value, WalkAt(sqrtAt, path, large, aToB, m).value;
            var v, w := WalkAt(sqrtAt, path, small, aToB, m + 1).value, WalkAt(sqrtAt, path, large, aToB, m + 1).value;
            && (if aToB then a.price <= small.price else small.price <= a.price)
            && if a.remaining == 0 then v.output <= w.output
               else
                 || v.output == w.output
                 || (a.output <= v.output && a.output <= w.output
                     && Pays(a.price, sqrtAt(path[m].index), a.liquidity, a.remaining, b.remaining, aToB,
                             v.output - a.output, w.output - a.output))
  {
    hide VisitTick, Swaps, Pays;
    OutputGrows(sqrtAt, path, large, aToB, m);
    WalkIsSound(sqrtAt, path, small, aToB, m);
    var a, b := WalkAt(sqrtAt, path, small, aToB, m).value, WalkAt(sqrtAt, path, large, aToB, m).value;
    if a.remaining > 0 {
      VisitPays(sqrtAt, a, b, path[m], aToB);
    }
  }

  /** After equally many iterations the smaller sale is in step with the larger, or used up and not ahead in output. */
  lemma SalesCompare(sqrtAt: PriceTable, path: seq<Tick>, small: Walk, large: Walk, n: nat)
    requires Increasing(sqrtAt) && n <= |path|
    requires MIN_SQRT_PRICE <= small.price <= MAX_SQRT_PRICE && small.output == 0 && InStep(small, large)
    ensures match (WalkAt(sqrtAt, path, small, true, n), WalkAt(sqrtAt, path, large, true, n))
            case (Some(a), Some(b)) => InStep(a, b) || (a.remaining == 0 && a.output <= b.output)
            case _ => true
  {
    hide WalkAt, Pays;
    if WalkAt(sqrtAt, path, small, true, n).None? || WalkAt(sqrtAt, path, large, true, n).None? { return; }
    var m := WalksPart(sqrtAt, path, small, large, true, n);
    if m < n {
      var a, b := WalkAt(sqrtAt, path, small, true, m).value, WalkAt(sqrtAt, path, large, true, m).value;
      PartedVisit(sqrtAt, path, small, large, true, m);
      var v, w := WalkAt(sqrtAt, path, small, true, m + 1).value, WalkAt(sqrtAt, path, large, true, m + 1).value;
      if a.remaining > 0 && v.output != w.output {
        RangePaysSaleNoLess(a.price, sqrtAt(path[m].index), a.liquidity, a.remaining, b.remaining,
                            v.output - a.output, w.output - a.output);
      }
    }
  }

  /** At the end of the two walks, the larger sale yields no less exactly when its last swap does not overflow, or the
      smaller one's pays nothing. */
  lemma LastRangeExactly(a: Walk, b: Walk)
    requires InStep(a, b) || (a.remaining == 0 && a.output <= b.output)
    requires a.output <= MAX_STEPS * TWO_96 && b.output <= MAX_STEPS * TWO_96
    requires MIN_SQRT_PRICE <= a.price && MIN_SQRT_PRICE <= b.price
    ensures LastRange(a, true) <= LastRange(b, true) <==> LastStepQuotes(b, true) || LastRange(a, true) == a.output
  {
    hide ComputeSwapStep, LastRange;
    LastRangeGrows(a, true);
    LastRangeGrows(b, true);
    if InStep(a, b) {
      StepMonotone(a.price, MIN_SQRT_PRICE, a.liquidity, a.remaining, b.remaining);
    }
  }

  /** For a pool priced in bounds, the larger sale yields no less exactly when its last swap does not overflow, or
      the smaller sale's last range pays nothing; whatever ticks either sale crosses and whether or not one of them
      hits the cap of 50 ticks. */
  lemma SellingMoreYieldsNoLessExactlyWhen(sqrtAt: PriceTable, feeBps: u64, currentTick: int, price: u128, liquidity: u128,
                                           arrays: seq<TickArray>, x: u64, y: u64)
    requires Increasing(sqrtAt) && MIN_SQRT_PRICE <= price <= MAX_SQRT_PRICE && x <= y
    ensures var outX := MultiTickOutput(sqrtAt, feeBps, currentTick, price, liquidity, arrays, x, true);
            var outY := MultiTickOutput(sqrtAt, feeBps, currentTick, price, liquidity, arrays, y, true);
            var endX := EndOfWalk(sqrtAt, feeBps, currentTick, price, liquidity, arrays, x, true);
            var endY := EndOfWalk(sqrtAt, feeBps, currentTick, price, liquidity, arrays, y, true);
            outX.Some? && outY.Some? ==>
              && endX.Some? && endY.Some?
              && (outX.value <= outY.value <==>
                    LastStepQuotes(endY.value, true) || LastRange(endX.value, true) == endX.value.output)
  {
    hide MultiTickOutput, LastRange, LastStepQuotes, VisitTick;
    if MultiTickOutput(sqrtAt, feeBps, currentTick, price, liquidity, arrays, x, true).None? { return; }
    if MultiTickOutput(sqrtAt, feeBps, currentTick, price, liquidity, arrays, y, true).None? { return; }
    QuoteIsLastRange(sqrtAt, feeBps, currentTick, price, liquidity, arrays, x, true);
    QuoteIsLastRange(sqrtAt, feeBps, currentTick, price, liquidity, arrays, y, true);
    AfterFeeMonotone(feeBps, x, y);
    var path := Path(arrays, currentTick, true);
    var small := Walk(AfterFee(x, feeBps).value, 0, price, liquidity);
    var large := Walk(AfterFee(y, feeBps).value, 0, price, liquidity);
    SalesCompare(sqrtAt, path, small, large, |path|);
    WalkIsSound(sqrtAt, path, small, true, |path|);
    WalkIsSound(sqrtAt, path, large, true, |path|);
    LastRangeExactly(WalkAt(sqrtAt, path, small, true, |path|).value, WalkAt(sqrtAt, path, large, true, |path|).value);
  }

  // ---- Buying: a larger purchase yields hardly less ----

  /** `small` is not more than `large` plus one and `Q/price`. */
  predicate HardlyMore(small: nat, large: nat, price: u128) {
    small * price < (large + 1) * price + Q64
  }

  lemma HardlyMoreLess(small: nat, large: nat, more: nat, price: u128)
    requires HardlyMore(small, large, price) && large <= more
    ensures HardlyMore(small, more, price)
  {
    MulMono(large + 1, more + 1, price);
  }

  lemma NoMoreIsHardlyMore(small: nat, large: nat, price: u128)
    requires small <= large
    ensures HardlyMore(small, large, price)
  {
    MulMono(small, large + 1, price);
  }

  /** The bound at the price reached is one at every lower price, and after equal earlier outputs. */
  lemma HardlyMoreLower(before: nat, paid1: nat, paid2: nat, price: u128, next: u128)
    requires price <= next && HardlyMore(paid1, paid2, next)
    ensures HardlyMore(before + paid1, before + paid2, price)
  {
    var excess := paid1 - paid2 - 1;
    assert excess * next < Q64 by { MulDistribute(next, excess, paid2 + 1); }
    if excess > 0 { MulMono(price, next, excess); } else { MulMono(excess, 0, price); }
    MulDistribute(price, excess, before + paid2 + 1);
  }

  lemma RangePaysPurchaseHardlyLess(current: u128, target: u128, liquidity: u128, r1: u128, r2: u128, before: nat,
                                    paid1: nat, paid2: nat, price: u128)
    requires r1 <= r2 && price <= current && Pays(current, target, liquidity, r1, r2, false, paid1, paid2)
    ensures HardlyMore(before + paid1, before + paid2, price)
  {
    hide ComputeSwapStep;
    BuyingPriceMonotone(current, target, liquidity, r1, r2);
    BuyingStepNearlyMonotone(current, target, liquidity, r1, r2);
    var next := ComputeSwapStep(current, target, liquidity, r2, false).value.next;
    HardlyMoreLower(before, paid1, paid2, price, next);
  }

  lemma PurchasesCompare(sqrtAt: PriceTable, path: seq<Tick>, small: Walk, large: Walk, n: nat)
    requires Increasing(sqrtAt) && n <= |path|
    requires MIN_SQRT_PRICE <= small.price <= MAX_SQRT_PRICE && small.output == 0 && InStep(small, large)
    ensures match (WalkAt(sqrtAt, path, small, false, n), WalkAt(sqrtAt, path, large, false, n))
            case (Some(a), Some(b)) => InStep(a, b) || (a.remaining == 0 && HardlyMore(a.output, b.output, small.price))
            case _ => true
  {
    hide WalkAt, Pays, HardlyMore;
    if WalkAt(sqrtAt, path, small, false, n).None? || WalkAt(sqrtAt, path, large, false, n).None? { return; }
    var m := WalksPart(sqrtAt, path, small, large, false, n);
    if m < n {
      var a, b := WalkAt(sqrtAt, path, small, false, m).value, WalkAt(sqrtAt, path, large, false, m).value;
      PartedVisit(sqrtAt, path, small, large, false, m);
      var v, w := WalkAt(sqrtAt, path, small, false, m + 1).value, WalkAt(sqrtAt, path, large, false, m + 1).value;
      if v.output <= w.output {
        NoMoreIsHardlyMore(v.output, w.output, small.price);
      } else {
        RangePaysPurchaseHardlyLess(a.price, sqrtAt(path[m].index), a.liquidity, a.remaining, b.remaining, a.output,
                                    v.output - a.output, w.output - a.output, small.price);
      }
      HardlyMoreLess(v.output, w.output, WalkAt(sqrtAt, path, large, false, n).value.output, small.price);
    }
  }

  lemma LastRangeHardlyMore(a: Walk, b: Walk, price: u128)
    requires InStep(a, b) || (a.remaining == 0 && HardlyMore(a.output, b.output, price))
    requires LastStepQuotes(b, false) && price <= a.price
    requires a.output <= MAX_STEPS * TWO_96 && b.output <= MAX_STEPS * TWO_96
    requires MIN_SQRT_PRICE <= a.price && MIN_SQRT_PRICE <= b.price
    ensures HardlyMore(LastRange(a, false), LastRange(b, false), price)
  {
    hide ComputeSwapStep, LastRange, HardlyMore;
    LastRangeGrows(a, false);
    LastRangeGrows(b, false);
    if LastRange(a, false) <= LastRange(b, false) {
      NoMoreIsHardlyMore(LastRange(a, false), LastRange(b, false), price);
    } else if InStep(a, b) {
      RangePaysPurchaseHardlyLess(a.price, MAX_SQRT_PRICE, a.liquidity, a.remaining, b.remaining, a.output,
                                  LastRange(a, false) - a.output, LastRange(b, false) - a.output, price);
    } else {
      HardlyMoreLess(a.output, b.output, LastRange(b, false), price);
    }
  }

  /** At the end of the two walks, the larger purchase keeps the bound exactly when its last swap does not overflow, or
      the smaller one's pays hardly anything. */
  lemma LastRangeHardlyMoreExactly(a: Walk, b: Walk, price: u128)
    requires InStep(a, b) || (a.remaining == 0 && HardlyMore(a.output, b.output, price))
    requires price <= a.price
    requires a.output <= MAX_STEPS * TWO_96 && b.output <= MAX_STEPS * TWO_96
    requires MIN_SQRT_PRICE <= a.price && MIN_SQRT_PRICE <= b.price
    ensures HardlyMore(LastRange(a, false), LastRange(b, false), price) <==>
              LastStepQuotes(b, false) || HardlyMore(LastRange(a, false), a.output, price)
  {
    hide ComputeSwapStep, LastRange, HardlyMore;
    LastRangeGrows(a, false);
    LastRangeGrows(b, false);
    if LastStepQuotes(b, false) {
      LastRangeHardlyMore(a, b, price);
    } else if a.remaining == 0 {
      NoMoreIsHardlyMore(a.output, a.output, price);
      if InStep(a, b) { NoMoreIsHardlyMore(a.output, b.output, price); }
    }
  }

  /** For a pool priced in bounds, the larger purchase yields at most `Q/price + 1` less than the smaller exactly when its
      last swap does not overflow, or the smaller one's last range pays at most that; however many ticks the two cross. */
  lemma BuyingMoreYieldsHardlyLessExactlyWhen(sqrtAt: PriceTable, feeBps: u64, currentTick: int, price: u128, liquidity: u128,
                                              arrays: seq<TickArray>, x: u64, y: u64)
    requires Increasing(sqrtAt) && MIN_SQRT_PRICE <= price <= MAX_SQRT_PRICE && x <= y
    ensures var outX := MultiTickOutput(sqrtAt, feeBps, currentTick, price, liquidity, arrays, x, false);
            var outY := MultiTickOutput(sqrtAt, feeBps, currentTick, price, liquidity, arrays, y, false);
            var endX := EndOfWalk(sqrtAt, feeBps, currentTick, price, liquidity, arrays, x, false);
            var endY := EndOfWalk(sqrtAt, feeBps, currentTick, price, liquidity, arrays, y, false);
            outX.Some? && outY.Some? ==>
              && endX.Some? && endY.Some?
              && (HardlyMore(outX.value, outY.value, price) <==>
                    || LastStepQuotes(endY.value, false)
                    || HardlyMore(LastRange(endX.value, false), endX.value.output, price))
  {
    hide MultiTickOutput, LastRange, LastStepQuotes, VisitTick, HardlyMore;
    if MultiTickOutput(sqrtAt, feeBps, currentTick, price, liquidity, arrays, x, false).None? { return; }
    if MultiTickOutput(sqrtAt, feeBps, currentTick, price, liquidity, arrays, y, false).None? { return; }
    QuoteIsLastRange(sqrtAt, feeBps, currentTick, price, liquidity, arrays, x, false);
    QuoteIsLastRange(sqrtAt, feeBps, currentTick, price, liquidity, arrays, y, false);
    AfterFeeMonotone(feeBps, x, y);
    var path := Path(arrays, currentTick, false);
    var small := Walk(AfterFee(x, feeBps).value, 0, price, liquidity);
    var large := Walk(AfterFee(y, feeBps).value, 0, price, liquidity);
    PurchasesCompare(sqrtAt, path, small, large, |path|);
    WalkIsSound(sqrtAt, path, small, false, |path|);
    WalkIsSound(sqrtAt, path, large, false, |path|);
    LastRangeHardlyMoreExactly(WalkAt(sqrtAt, path, small, false, |path|).value,
                               WalkAt(sqrtAt, path, large, false, |path|).value, price);
  }

  /** The last range of a purchase pays only while the liquidity times the way to the highest price is a 128-bit number.
      At half that price or less a liquidity of 2^34 is already too much: whatever input is left then buys nothing. */
  lemma LastPurchaseIsDropped(w: Walk)
    requires w.liquidity * (MAX_SQRT_PRICE - w.price) > U128_MAX
    ensures LastStep(w, false).None? && LastRange(w, false) == w.output
  {
  }

  lemma DeepPoolsDropLastPurchase(w: Walk)
    requires w.liquidity >= 0x4_0000_0000 && w.price <= MAX_SQRT_PRICE / 2
    ensures LastStep(w, false).None? && LastRange(w, false) == w.output
  {
    MulMono(0x4_0000_0000, w.liquidity, MAX_SQRT_PRICE - w.price);
    LastPurchaseIsDropped(w);
  }

  // ---- Buying: a larger purchase yields no less once the inputs are apart ----

  /** The smaller input is used up by the swap of range `m`, the last range being `|path|`. */
  ghost predicate SpentIn(sqrtAt: PriceTable, path: seq<Tick>, small: Walk, m: int) {
    && 0 <= m <= |path|
    && WalkAt(sqrtAt, path, small, false, m).Some? && WalkAt(sqrtAt, path, small, false, m).value.remaining > 0
    && (m < |path| ==>
          && WalkAt(sqrtAt, path, small, false, m + 1).Some?
          && WalkAt(sqrtAt, path, small, false, m + 1).value.remaining == 0)
  }

  function RangeEnd(sqrtAt: PriceTable, path: seq<Tick>, m: nat): u128
    requires m <= |path|
  {
    if m < |path| then sqrtAt(path[m].index) else MAX_SQRT_PRICE
  }

  /** The two moves in a range are the same, or the price they differ by, times the liquidity, is at least the price
      the smaller one reaches. */
  ghost predicate ApartIn(a: Walk, b: Walk, target: u128) {
    match (ComputeSwapStep(a.price, target, a.liquidity, a.remaining, false),
           ComputeSwapStep(a.price, target, a.liquidity, b.remaining, false))
    case (Some(s1), Some(s2)) => s1.next == s2.next || a.liquidity * (s2.next - s1.next) >= s1.next
    case _ => true
  }

  ghost predicate ApartWhereSpent(sqrtAt: PriceTable, path: seq<Tick>, small: Walk, large: Walk) {
    forall m :: SpentIn(sqrtAt, path, small, m) && WalkAt(sqrtAt, path, large, false, m).Some? ==>
      ApartIn(WalkAt(sqrtAt, path, small, false, m).value, WalkAt(sqrtAt, path, large, false, m).value,
              RangeEnd(sqrtAt, path, m))
  }

  lemma SameMoveSamePay(current: u128, target: u128, liquidity: u128, r: u128)
    requires ComputeSwapStep(current, target, liquidity, r, false).Some?
    ensures var s := ComputeSwapStep(current, target, liquidity, r, false).value;
            AmountOut(current, s.next, liquidity, false) == Some(s.amountOut)
  {
    hide MaxIn, PartialPrice, AmountOut;
  }

  lemma RangePaysApart(a: Walk, b: Walk, target: u128, paid1: nat, paid2: nat)
    requires InStep(a, b) && ApartIn(a, b, target)
    requires Pays(a.price, target, a.liquidity, a.remaining, b.remaining, false, paid1, paid2)
    ensures paid1 <= paid2
  {
    hide ComputeSwapStep;
    SameMoveSamePay(a.price, target, a.liquidity, a.remaining);
    SameMoveSamePay(a.price, target, a.liquidity, b.remaining);
    BuyingStepMonotoneWhenApart(a.price, target, a.liquidity, a.remaining, b.remaining);
  }

  lemma ApartAt(sqrtAt: PriceTable, path: seq<Tick>, small: Walk, large: Walk, m: nat)
    requires ApartWhereSpent(sqrtAt, path, small, large) && m <= |path|
    requires WalkAt(sqrtAt, path, small, false, m).Some? && WalkAt(sqrtAt, path, large, false, m).Some?
    requires WalkAt(sqrtAt, path, small, false, m).value.remaining > 0
    requires m < |path| ==> WalkAt(sqrtAt, path, small, false, m + 1).Some?
                            && WalkAt(sqrtAt, path, small, false, m + 1).value.remaining == 0
    ensures ApartIn(WalkAt(sqrtAt, path, small, false, m).value, WalkAt(sqrtAt, path, large, false, m).value,
                    RangeEnd(sqrtAt, path, m))
  {
    hide WalkAt, ApartIn;
    assert SpentIn(sqrtAt, path, small, m);
  }

  lemma PurchasesCompareApart(sqrtAt: PriceTable, path: seq<Tick>, small: Walk, large: Walk, n: nat)
    requires Increasing(sqrtAt) && n <= |path| && ApartWhereSpent(sqrtAt, path, small, large)
    requires MIN_SQRT_PRICE <= small.price <= MAX_SQRT_PRICE && small.output == 0 && InStep(small, large)
    ensures match (WalkAt(sqrtAt, path, small, false, n), WalkAt(sqrtAt, path, large, false, n))
            case (Some(a), Some(b)) => InStep(a, b) || (a.remaining == 0 && a.output <= b.output)
            case _ => true
  {
    hide WalkAt, Pays, ApartIn, ApartWhereSpent;
    if WalkAt(sqrtAt, path, small, false, n).None? || WalkAt(sqrtAt, path, large, false, n).None? { return; }
    var m := WalksPart(sqrtAt, path, small, large, false, n);
    if m < n {
      var a, b := WalkAt(sqrtAt, path, small, false, m).value, WalkAt(sqrtAt, path, large, false, m).value;
      PartedVisit(sqrtAt, path, small, large, false, m);
      var v, w := WalkAt(sqrtAt, path, small, false, m + 1).value, WalkAt(sqrtAt, path, large, false, m + 1).value;
      if a.remaining > 0 && v.output != w.output {
        ApartAt(sqrtAt, path, small, large, m);
        RangePaysApart(a, b, RangeEnd(sqrtAt, path, m), v.output - a.output, w.output - a.output);
      }
    }
  }

  lemma LastRangeApartExactly(a: Walk, b: Walk)
    requires (InStep(a, b) && (a.remaining > 0 ==> ApartIn(a, b, MAX_SQRT_PRICE))) || (a.remaining == 0 && a.output <= b.output)
    requires a.output <= MAX_STEPS * TWO_96 && b.output <= MAX_STEPS * TWO_96
    requires MIN_SQRT_PRICE <= a.price && MIN_SQRT_PRICE <= b.price
    ensures LastRange(a, false) <= LastRange(b, false) <==> LastStepQuotes(b, false) || LastRange(a, false) == a.output
  {
    hide ComputeSwapStep, LastRange, ApartIn;
    LastRangeGrows(a, false);
    LastRangeGrows(b, false);
    if LastStepQuotes(b, false) && LastRange(a, false) > LastRange(b, false) {
      RangePaysApart(a, b, MAX_SQRT_PRICE, LastRange(a, false) - a.output, LastRange(b, false) - a.output);
      assert false;
    }
  }

  /** When, in the one range where the smaller purchase is used up, the two are apart, the larger yields no less exactly
      when its last swap does not overflow or the smaller one's last range pays nothing. */
  lemma BuyingMoreYieldsNoLessWhenApart(sqrtAt: PriceTable, feeBps: u64, currentTick: int, price: u128, liquidity: u128,
                                        arrays: seq<TickArray>, x: u64, y: u64)
    requires Increasing(sqrtAt) && MIN_SQRT_PRICE <= price <= MAX_SQRT_PRICE && x <= y
    ensures var outX := MultiTickOutput(sqrtAt, feeBps, currentTick, price, liquidity, arrays, x, false);
            var outY := MultiTickOutput(sqrtAt, feeBps, currentTick, price, liquidity, arrays, y, false);
            var endX := EndOfWalk(sqrtAt, feeBps, currentTick, price, liquidity, arrays, x, false);
            var endY := EndOfWalk(sqrtAt, feeBps, currentTick, price, liquidity, arrays, y, false);
            outX.Some? && outY.Some? ==>
              && AfterFee(x, feeBps).Some? && AfterFee(y, feeBps).Some? && endX.Some? && endY.Some?
              && var small := Walk(AfterFee(x, feeBps).value, 0, price, liquidity);
              && var large := Walk(AfterFee(y, feeBps).value, 0, price, liquidity);
              && (ApartWhereSpent(sqrtAt, Path(arrays, currentTick, false), small, large) ==>
                    (outX.value <= outY.value <==>
                       LastStepQuotes(endY.value, false) || LastRange(endX.value, false) == endX.value.output))
  {
    hide MultiTickOutput, LastRange, LastStepQuotes, ApartWhereSpent, VisitTick;
    if MultiTickOutput(sqrtAt, feeBps, currentTick, price, liquidity, arrays, x, false).None? { return; }
    if MultiTickOutput(sqrtAt, feeBps, currentTick, price, liquidity, arrays, y, false).None? { return; }
    QuoteIsLastRange(sqrtAt, feeBps, currentTick, price, liquidity, arrays, x, false);
    QuoteIsLastRange(sqrtAt, feeBps, currentTick, price, liquidity, arrays, y, false);
    AfterFeeMonotone(feeBps, x, y);
    var path := Path(arrays, currentTick, false);
    var small := Walk(AfterFee(x, feeBps).value, 0, price, liquidity);
    var large := Walk(AfterFee(y, feeBps).value, 0, price, liquidity);
    WalkIsSound(sqrtAt, path, small, false, |path|);
    WalkIsSound(sqrtAt, path, large, false, |path|);
    var a, b := WalkAt(sqrtAt, path, small, false, |path|).value, WalkAt(sqrtAt, path, large, false, |path|).value;
    if ApartWhereSpent(sqrtAt, path, small, large) {
      PurchasesCompareApart(sqrtAt, path, small, large, |path|);
      if a.remaining > 0 { ApartAt(sqrtAt, path, small, large, |path|); }
      LastRangeApartExactly(a, b);
    }
  }

  // ---- Pools for which more input quotes less ----

  lemma NoFee(input: u64)
    ensures AfterFee(input, 0) == Some(input)
  {
  }

  /** A quote with no fee and no tick ahead is its last swap. */
  lemma QuoteWithoutTicks(sqrtAt: PriceTable, currentTick: int, price: u128, liquidity: u128, arrays: seq<TickArray>,
                          input: u64, aToB: bool)
    requires input > 0 && liquidity > 0 && Path(arrays, currentTick, aToB) == []
    ensures var step := LastStep(Walk(input, 0, price, liquidity), aToB);
            var out := if step.Some? then step.value.amountOut else 0;
            MultiTickOutput(sqrtAt, 0, currentTick, price, liquidity, arrays, input, aToB)
              == if out > U64_MAX then None else Some(out)
  {
    hide ComputeSwapStep, Path;
    assert AfterFee(input, 0) == Some(input) by { NoFee(input); }
  }

  function TickOf(pool: PoolState): int {
    if pool.currentTick.Some? then pool.currentTick.value else 0
  }

  /** A whirlpool without a fee whose cached tick arrays hold no initialized tick ahead of the trade. */
  ghost predicate IsBarePool(market: Market, pool: PoolState, price: u128, liquidity: u128, aToB: bool) {
    && pool.dexType.OrcaWhirlpool? && pool.feeBps == 0
    && pool.sqrtPrice == Some(price) && pool.liquidity == Some(liquidity)
    && pool.address in market.ticks && market.ticks[pool.address] != []
    && Path(market.ticks[pool.address], TickOf(pool), aToB) == []
  }

  lemma BarePoolQuotesLastStep(market: Market, pool: PoolState, price: u128, liquidity: u128, input: u64, aToB: bool)
    requires IsBarePool(market, pool, price, liquidity, aToB) && price > 0 && liquidity > 0 && input > 0
    ensures var step := LastStep(Walk(input, 0, price, liquidity), aToB);
            var out := if step.Some? then step.value.amountOut else 0;
            out <= U64_MAX ==> OutputAmount(market, pool, input, aToB) == Some(out)
  {
    hide ComputeSwapStep, MultiTickOutput, Path;
    QuoteWithoutTicks(market.sqrtAt, TickOf(pool), price, liquidity, market.ticks[pool.address], input, aToB);
  }

  lemma SmallSaleQuotes()
    ensures ComputeSwapStep(MAX_SQRT_PRICE, MIN_SQRT_PRICE, 16, 0x10_0000, true).Some?
    ensures ComputeSwapStep(MAX_SQRT_PRICE, MIN_SQRT_PRICE, 16, 0x10_0000, true).value.amountOut == 0xF_FFEC_4B13
  {
  }

  lemma LargeSaleOverflows()
    ensures ComputeSwapStep(MAX_SQRT_PRICE, MIN_SQRT_PRICE, 16, 0x2_0000_0000, true).None?
  {
  }

  /** The condition on the last swap is needed: in a pool at the highest price, with liquidity 16, selling 2^20 yields
      nearly 2^36, but selling 2^33 overflows in the last swap, which is dropped, and the engine's quote is a silent 0. */
  lemma DroppedLastStep(market: Market, pool: PoolState)
    requires IsBarePool(market, pool, MAX_SQRT_PRICE, 16, true)
    ensures OutputAmount(market, pool, 0x10_0000, true) == Some(0xF_FFEC_4B13)
    ensures OutputAmount(market, pool, 0x2_0000_0000, true) == Some(0)
  {
    hide ComputeSwapStep, OutputAmount;
    SmallSaleQuotes();
    LargeSaleOverflows();
    BarePoolQuotesLastStep(market, pool, MAX_SQRT_PRICE, 16, 0x10_0000, true);
    BarePoolQuotesLastStep(market, pool, MAX_SQRT_PRICE, 16, 0x2_0000_0000, true);
  }

  /** Buying has no such law: in a pool at price 4.0 with liquidity 8, 32 in quotes 1 and 33 in quotes 0. */
  lemma BuyingMoreCanYieldLess(market: Market, pool: PoolState)
    requires IsBarePool(market, pool, 4 * Q64, 8, false)
    ensures OutputAmount(market, pool, 32, false) == Some(1)
    ensures OutputAmount(market, pool, 33, false) == Some(0)
  {
    hide ComputeSwapStep, OutputAmount;
    BuyingStepNotMonotone();
    BarePoolQuotesLastStep(market, pool, 4 * Q64, 8, 32, false);
    BarePoolQuotesLastStep(market, pool, 4 * Q64, 8, 33, false);
  }

  lemma SmallPurchaseQuotes()
    ensures ComputeSwapStep(0x2_0000_0000, MAX_SQRT_PRICE, 0x1_0000_0000, 1, false).Some?
    ensures ComputeSwapStep(0x2_0000_0000, MAX_SQRT_PRICE, 0x1_0000_0000, 1, false).value.amountOut == 3_074_457_345_618_258_602
  {
  }

  lemma LargePurchaseOverflows()
    ensures ComputeSwapStep(0x2_0000_0000, MAX_SQRT_PRICE, 0x1_0000_0000, 0x4_0000_0000, false).None?
  {
  }

  /** Nor does the bound hold without its condition: at price 2^-31 (2^33 in Q64.64) with liquidity 2^32, 1 in quotes more
      than 2^61, but 2^34 in overflows in the last swap and quotes 0. */
  lemma DroppedLastPurchase(market: Market, pool: PoolState)
    requires IsBarePool(market, pool, 0x2_0000_0000, 0x1_0000_0000, false)
    ensures OutputAmount(market, pool, 1, false) == Some(3_074_457_345_618_258_602)
    ensures OutputAmount(market, pool, 0x4_0000_0000, false) == Some(0)
    ensures !HardlyMore(3_074_457_345_618_258_602, 0, 0x2_0000_0000)
  {
    hide ComputeSwapStep, OutputAmount;
    SmallPurchaseQuotes();
    LargePurchaseOverflows();
    BarePoolQuotesLastStep(market, pool, 0x2_0000_0000, 0x1_0000_0000, 1, false);
    BarePoolQuotesLastStep(market, pool, 0x2_0000_0000, 0x1_0000_0000, 0x4_0000_0000, false);
  }
}
