/** One swap step at constant liquidity (`compute_swap_step`) and the single-range quote built on it.

    With P the current and T the target square-root price in Q64.64, L the liquidity and Q = 2^64, the exact
    curve needs `L*Q*(P-T)/(P*T)` of token A to push the price down from P to T and pays `L*(P-T)/Q` of token B;
    upwards it needs `L*(T-P)/Q` of B and pays `L*Q*(T-P)/(P*T)` of A. */
module SwapStep {
  import opened Machine

  const MIN_SQRT_PRICE: u128 := 4295048016
  const MAX_SQRT_PRICE: u128 := 79226673515401279992447579055

  datatype Step = Step(amountIn: u128, amountOut: u128, next: u128)

  /** Input that moves the price all the way from `current` to `target`, as the code rounds it. */
  function MaxIn(current: u128, target: u128, liquidity: u128, aToB: bool): Option<u128> {
    if aToB then
      var diff :- CheckedSub(current, target);
      var product :- CheckedMul(liquidity, diff);
      var step1 :- CheckedDiv(product, current);
      var scaled :- CheckedMul(step1, Q64);
      CheckedDiv(scaled, target)
    else
      var diff :- CheckedSub(target, current);
      var product :- CheckedMul(liquidity, diff);
      CheckedDiv(product, Q64)
  }

  /** Price reached by an input that does not get to the target. */
  function PartialPrice(current: u128, liquidity: u128, amount: u128, aToB: bool): Option<u128> {
    if aToB then
      var product :- CheckedMul(amount, current);
      var scaled :- CheckedDiv(product, Q64);
      var denominator :- CheckedAdd(liquidity, scaled);
      if denominator == 0 then None else
      var numerator :- CheckedMul(liquidity, current);
      CheckedDiv(numerator, denominator)
    else
      var scaled :- CheckedMul(amount, Q64);
      var delta :- CheckedDiv(scaled, liquidity);
      CheckedAdd(current, delta)
  }

  /** Output paid for moving the price from `current` to `next`. */
  function AmountOut(current: u128, next: u128, liquidity: u128, aToB: bool): Option<u128> {
    if aToB then
      var diff :- CheckedSub(current, next);
      var product :- CheckedMul(liquidity, diff);
      CheckedDiv(product, Q64)
    else
      var diff :- CheckedSub(next, current);
      var numerator :- CheckedMul(liquidity, diff);
      var step1 :- CheckedDiv(numerator, current);
      var scaled :- CheckedMul(step1, Q64);
      CheckedDiv(scaled, next)
  }

  function ComputeSwapStep(current: u128, target: u128, liquidity: u128, remaining: u128, aToB: bool): Option<Step> {
    var maxIn :- MaxIn(current, target, liquidity, aToB);
    if remaining >= maxIn then
      var out :- AmountOut(current, target, liquidity, aToB);
      Some(Step(maxIn, out, target))
    else
      var next :- PartialPrice(current, liquidity, remaining, aToB);
      var out :- AmountOut(current, next, liquidity, aToB);
      Some(Step(remaining, out, next))
  }

  /** Fee in parts per million, taken from the input before any swap. */
  function AfterFee(input: u64, feeBps: u64): Option<u128> {
    var keep :- CheckedSub(1_000_000, feeBps * 100);
    var product :- CheckedMul(input, keep);
    CheckedDiv(product, 1_000_000)
  }

  /** `clmm_single_tick_output`: the whole input swapped in one liquidity range with no boundary. */
  function SingleRangeOutput(feeBps: u64, price: u128, liquidity: u128, input: u64, aToB: bool): Option<u64> {
    var amount :- AfterFee(input, feeBps);
    if amount == 0 then Some(0) else
    var next :- PartialPrice(price, liquidity, amount, aToB);
    if (if aToB then next >= price else next <= price) then None else
    var out :- AmountOut(price, next, liquidity, aToB);
    if out > U64_MAX then None else Some(out)
  }

  // ---- The price never leaves the interval between where it is and where it is going ----

  /** With `step1 <= l*d/p`, `r*t < step1*q` and `scaled <= r*p/q`: `scaled*t < l*d`. */
  lemma ScaledInputBelow(d: nat, p: nat, t: nat, l: nat, r: nat, q: nat, step1: nat, scaled: nat)
    requires 0 < p && 0 < q
    requires step1 * p <= l * d && r * t < step1 * q && scaled * q <= r * p
    ensures scaled * t < l * d
  {
    calc {
      (scaled * t) * q;
      (scaled * q) * t;
    <= { MulMono(scaled * q, r * p, t); }
      (r * p) * t;
      (r * t) * p;
    <  { MulStrict(r * t, step1 * q, p); }
      (step1 * q) * p;
      (step1 * p) * q;
    <= { MulMono(step1 * p, l * d, q); }
      (l * d) * q;
    }
    CancelLt(scaled * t, l * d, q);
  }

  /** Going down, a partial fill leaves at least `target`, the quotient being of numbers the code has floored. */
  lemma PartialStaysAbove(p: nat, t: nat, l: nat, r: nat, q: nat)
    requires 0 < t <= p && 0 < q
    requires r < (l * (p - t) / p) * q / t
    ensures t * (l + r * p / q) <= l * p
  {
    var d, step1, scaled := p - t, l * (p - t) / p, r * p / q;
    assert step1 * p <= l * d by { QuotientBounds(l * d, p); }
    assert r * t < step1 * q by {
      QuotientBounds(step1 * q, t);
      MulStrict(r, step1 * q / t, t);
    }
    assert scaled * q <= r * p by { QuotientBounds(r * p, q); }
    ScaledInputBelow(d, p, t, l, r, q, step1, scaled);
    assert l * d == l * p - t * l;
  }

  lemma PartialStaysBelow(p: nat, t: nat, l: nat, r: nat, q: nat)
    requires p <= t && 0 < q && 0 < l
    requires r < l * (t - p) / q
    ensures r * q / l < t - p
  {
    var d := t - p;
    QuotientBounds(l * d, q);
    MulStrict(r, l * d / q, q);
    assert l * d == d * l;
    QuotientBelow(r * q, l, d);
  }

  lemma StepContained(current: u128, target: u128, liquidity: u128, remaining: u128, aToB: bool)
    requires ComputeSwapStep(current, target, liquidity, remaining, aToB).Some?
    ensures var s := ComputeSwapStep(current, target, liquidity, remaining, aToB).value;
            && (if aToB then target <= s.next <= current else current <= s.next <= target)
            && s.amountIn <= remaining
            && (s.next != target ==> s.amountIn == remaining)
            && (!aToB && s.amountIn == remaining < MaxIn(current, target, liquidity, aToB).value ==> s.next < target)
  {
    var maxIn := MaxIn(current, target, liquidity, aToB).value;
    if remaining < maxIn {
      if aToB {
        assert maxIn == (liquidity * (current - target) / current) * Q64 / target;
        PartialStaysAbove(current, target, liquidity, remaining, Q64);
        var denominator := liquidity + remaining * current / Q64;
        QuotientAtLeast(liquidity * current, denominator, target);
        QuotientBounds(remaining * current, Q64);
        QuotientBounds(liquidity * current, denominator);
        MulMono(liquidity, denominator, current);
        if current < liquidity * current / denominator {
          MulStrict(current, liquidity * current / denominator, denominator);
        }
      } else {
        assert maxIn == liquidity * (target - current) / Q64;
        PartialStaysBelow(current, target, liquidity, remaining, Q64);
        QuotientBounds(remaining * Q64, liquidity);
      }
    }
  }

  // ---- Rounding: how far each rounded amount is from the exact curve ----

  /** `step1` is the floor of `a/p` and `m` the floor of `step1*q/t`. */
  lemma TwoFloors(a: nat, p: nat, q: nat, t: nat, step1: nat, m: nat)
    requires 0 < p && 0 < q && 0 < t
    requires step1 * p <= a < step1 * p + p && m * t <= step1 * q < m * t + t
    ensures m * (p * t) <= a * q < (m + 1) * (p * t) + q * p
  {
    assert m * (p * t) <= a * q by {
      MulRegroup(m, t, p);
      MulMono(m * t, step1 * q, p);
      MulRegroup(step1, q, p);
      MulMono(step1 * p, a, q);
    }
    assert a * q < (m + 1) * (p * t) + q * p by {
      MulStrict(a, step1 * p + p, q);
      MulDistribute(q, step1 * p, p);
      MulRegroup(step1, p, q);
      MulStrict(step1 * q, m * t + t, p);
      MulDistribute(t, m, 1);
      MulRegroup(m + 1, t, p);
    }
  }

  /** Two floors in a row, `floor(floor(l*d/p) * q / t)`, lose less than `q/t + 1` against `l*d*q/(p*t)`. */
  lemma DoubleFloorBounds(l: nat, d: nat, p: nat, q: nat, t: nat)
    requires 0 < p && 0 < q && 0 < t
    ensures var m := (l * d / p) * q / t;
            m * (p * t) <= l * d * q < (m + 1) * (p * t) + q * p
  {
    var step1 := l * d / p;
    QuotientBounds(l * d, p);
    QuotientBounds(step1 * q, t);
    TwoFloors(l * d, p, q, t, step1, step1 * q / t);
  }

  /** The input charged for reaching the target is never above the exact amount. Selling A, the exact amount is
      `L*Q*(P-T)/(P*T)` and less than `Q/T + 1` is lost; buying A, it is `L*(T-P)/Q` and less than 1 is lost. */
  lemma MaxInRounding(current: u128, target: u128, liquidity: u128, aToB: bool)
    requires MaxIn(current, target, liquidity, aToB).Some?
    ensures var m := MaxIn(current, target, liquidity, aToB).value;
            if aToB then
              var exactTimesPT := liquidity * (current - target) * Q64;
              m * (current * target) <= exactTimesPT < (m + 1) * (current * target) + Q64 * current
            else
              m * Q64 <= liquidity * (target - current) < (m + 1) * Q64
  {
    if aToB {
      DoubleFloorBounds(liquidity, current - target, current, Q64, target);
    } else {
      QuotientBounds(liquidity * (target - current), Q64);
    }
  }

  /** The output is never above the exact amount for the price N reached. Buying A, the exact amount is
      `L*Q*(N-P)/(P*N)` and less than `Q/N + 1` is lost; selling A, it is `L*(P-N)/Q` and less than 1 is lost. */
  lemma OutputRounding(current: u128, target: u128, liquidity: u128, remaining: u128, aToB: bool)
    requires ComputeSwapStep(current, target, liquidity, remaining, aToB).Some?
    ensures var s := ComputeSwapStep(current, target, liquidity, remaining, aToB).value;
            if aToB then
              s.amountOut * Q64 <= liquidity * (current - s.next) < (s.amountOut + 1) * Q64
            else
              var exactTimesPN := liquidity * (s.next - current) * Q64;
              s.amountOut * (current * s.next) <= exactTimesPN < (s.amountOut + 1) * (current * s.next) + Q64 * current
  {
    StepContained(current, target, liquidity, remaining, aToB);
    var s := ComputeSwapStep(current, target, liquidity, remaining, aToB).value;
    if aToB {
      QuotientBounds(liquidity * (current - s.next), Q64);
    } else {
      DoubleFloorBounds(liquidity, s.next - current, current, Q64, s.next);
    }
  }

  /** `scaled` is the floor of `x/q` and `next` the floor of `lp/(l + scaled)`. */
  lemma RoundedPriceBounds(lp: nat, l: nat, x: nat, q: nat, next: nat, scaled: nat)
    requires 0 < q && scaled * q <= x < scaled * q + q
    requires next * (l + scaled) <= lp < (next + 1) * (l + scaled)
    ensures var scale := l * q + x; next * scale - next * q <= lp * q < (next + 1) * scale
  {
    var scale, d := l * q + x, l + scaled;
    MulDistribute(q, l, scaled);
    assert next * scale - next * q <= lp * q by {
      MulMono(scale - q, d * q, next);
      MulDistribute(next, scale - q, q);
      MulMono(next * d, lp, q);
      MulRegroup(next, d, q);
    }
    assert lp * q < (next + 1) * scale by {
      MulStrict(lp, (next + 1) * d, q);
      MulRegroup(next + 1, d, q);
      MulMono(d * q, scale, next + 1);
    }
  }

  /** Where an input r that stops short of the target leaves the price. Selling A, the exact price is
      `L*P*Q/(L*Q + r*P)`: the price N left is above it minus 1, and not above it by more than `N*Q/(L*Q + r*P)`.
      Buying A, the exact price is `P + r*Q/L`, and N is that rounded down. */
  lemma PartialPriceRounding(current: u128, liquidity: u128, amount: u128, aToB: bool)
    requires PartialPrice(current, liquidity, amount, aToB).Some?
    ensures var next := PartialPrice(current, liquidity, amount, aToB).value;
            if aToB then
              var scale := liquidity * Q64 + amount * current;
              next * scale - next * Q64 <= liquidity * current * Q64 < (next + 1) * scale
            else
              current <= next && (next - current) * liquidity <= amount * Q64 < (next - current + 1) * liquidity
  {
    if aToB {
      var scaled := amount * current / Q64;
      QuotientBounds(amount * current, Q64);
      QuotientBounds(liquidity * current, liquidity + scaled);
      var next := liquidity * current / (liquidity + scaled);
      MulDistribute(liquidity + scaled, next, 1);
      RoundedPriceBounds(liquidity * current, liquidity, amount * current, Q64, next, scaled);
    } else {
      QuotientBounds(amount * Q64, liquidity);
      MulDistribute(liquidity, amount * Q64 / liquidity, 1);
    }
  }

  /** The fee leaves the input times `1 - fee`, rounded down; only a fee above 100% is refused. */
  lemma AfterFeeExactly(input: u64, feeBps: u64)
    ensures AfterFee(input, feeBps).Some? <==> feeBps <= 10_000
    ensures feeBps <= 10_000 ==>
              var net := AfterFee(input, feeBps).value;
              net * 1_000_000 <= input * (1_000_000 - feeBps * 100) < (net + 1) * 1_000_000 && net <= input
  {
    if feeBps <= 10_000 {
      var keep := 1_000_000 - feeBps * 100;
      MulMono(keep, 1_000_000, input);
      MulMono(0, keep, input);
      QuotientBounds(input * keep, 1_000_000);
      QuotientMono(input * keep, input * 1_000_000, 1_000_000);
    }
  }

  /** With `scaled <= x/q`: the price falls from `p` to no less than `l*p/(l + scaled) - 1`. */
  lemma DropBound(p: nat, l: nat, x: nat, q: nat, next: nat, scaled: nat)
    requires 0 < q && scaled * q <= x && l * p < (next + 1) * (l + scaled)
    ensures (p - next) * (l * q + x) < p * x + (l * q + x)
  {
    var exact := l * q + x;
    assert (l * p) * q < (next + 1) * exact by {
      MulStrict(l * p, (next + 1) * (l + scaled), q);
      MulRegroup(next + 1, l + scaled, q);
      MulDistribute(q, l, scaled);
      MulMono((l + scaled) * q, exact, next + 1);
    }
    assert p * exact == (l * p) * q + p * x by {
      MulDistribute(p, l * q, x);
      MulRegroup(l, p, q);
      MulRegroup(l, q, p);
    }
    MulDistribute(exact, next, 1);
    MulDistribute(exact, p - next, next);
  }

  lemma PartialDropBound(p: nat, l: nat, r: nat, q: nat, next: nat)
    requires 0 < q && 0 < l
    requires next == l * p / (l + r * p / q)
    ensures (p - next) * (l * q + r * p) < p * (r * p) + (l * q + r * p)
  {
    var scaled := r * p / q;
    QuotientBounds(r * p, q);
    QuotientBounds(l * p, l + scaled);
    MulDistribute(l + scaled, next, 1);
    DropBound(p, l, r * p, q, next, scaled);
  }

  lemma EmptyRangeTakesNothing(current: u128, target: u128, aToB: bool)
    requires MaxIn(current, target, 0, aToB).Some?
    ensures MaxIn(current, target, 0, aToB) == Some(0)
  {
  }

  lemma PaidForDrop(paid: nat, l: nat, drop: nat, scale: nat, exact: nat)
    requires 0 < l && paid <= l * drop && drop * scale < exact + scale
    ensures paid * scale < l * exact + l * scale
  {
    MulMono(paid, l * drop, scale);
    MulRegroup(l, drop, scale);
    MulStrict(drop * scale, exact + scale, l);
    MulDistribute(l, exact, scale);
  }

  /** Selling A, a partial fill can pay more than the exact curve, by less than `L/Q`:
      the exact output for the input r is `L*P*r*P / (Q*(L*Q + r*P))`. */
  lemma PartialOverpayment(current: u128, target: u128, liquidity: u128, remaining: u128)
    ensures var step := ComputeSwapStep(current, target, liquidity, remaining, true);
            var scale := liquidity * Q64 + remaining * current;
            step.Some? && remaining < MaxIn(current, target, liquidity, true).value ==>
              step.value.amountOut * Q64 * scale < liquidity * (current * (remaining * current)) + liquidity * scale
  {
    if ComputeSwapStep(current, target, liquidity, remaining, true).None? { return; }
    if remaining >= MaxIn(current, target, liquidity, true).value { return; }
    var s := ComputeSwapStep(current, target, liquidity, remaining, true).value;
    StepContained(current, target, liquidity, remaining, true);
    var scale := liquidity * Q64 + remaining * current;
    assert liquidity > 0 by { EmptyRangeTakesNothing(current, target, true); }
    var drop, exact := current - s.next, current * (remaining * current);
    assert drop * scale < exact + scale by {
      PartialDropBound(current, liquidity, remaining, Q64, s.next);
    }
    assert s.amountOut == liquidity * drop / Q64;
    assert s.amountOut * Q64 <= liquidity * drop by { QuotientBounds(liquidity * drop, Q64); }
    PaidForDrop(s.amountOut * Q64, liquidity, drop, scale, exact);
  }

  /** The overpayment happens: at price 1.0 and liquidity 2^63, one unit in pays one unit out,
      though the exact curve pays less than one. */
  lemma PartialOverpaymentHappens()
    ensures var liquidity: u128 := 0x8000_0000_0000_0000;
            && ComputeSwapStep(Q64, MIN_SQRT_PRICE, liquidity, 1, true) == Some(Step(1, 1, Q64 - 2))
            && liquidity * (Q64 * (1 * Q64)) < 1 * Q64 * (liquidity * Q64 + 1 * Q64)
  {
  }

  // ---- When there is no answer ----

  lemma SellingMaxIn(current: u128, target: u128, liquidity: u128)
    ensures MaxIn(current, target, liquidity, true) ==
            if 0 < target <= current && liquidity * (current - target) <= U128_MAX
               && (liquidity * (current - target) / current) * Q64 <= U128_MAX
            then Some((liquidity * (current - target) / current) * Q64 / target) else None
  {
    if 0 < target <= current {
      QuotientBounds(liquidity * (current - target), current);
      QuotientBounds((liquidity * (current - target) / current) * Q64, target);
    }
  }

  lemma SellingPrice(price: u128, liquidity: u128, amount: u128)
    ensures PartialPrice(price, liquidity, amount, true) ==
            if amount * price > U128_MAX || liquidity * price > U128_MAX || liquidity + amount * price / Q64 > U128_MAX
               || liquidity + amount * price / Q64 == 0
            then None else Some(liquidity * price / (liquidity + amount * price / Q64))
  {
    if amount * price <= U128_MAX { QuotientBounds(amount * price, Q64); }
  }

  lemma SellingPays(price: u128, next: u128, liquidity: u128)
    requires next <= price && liquidity * (price - next) <= U128_MAX
    ensures AmountOut(price, next, liquidity, true) == Some(liquidity * (price - next) / Q64)
  {
    MulMono(0, price - next, liquidity);
  }

  lemma PartialStaysAboveTarget(current: u128, target: u128, liquidity: u128, remaining: u128)
    requires 0 < target <= current && liquidity > 0 && PartialPrice(current, liquidity, remaining, true).Some?
    requires MaxIn(current, target, liquidity, true).Some? && remaining < MaxIn(current, target, liquidity, true).value
    ensures var next := PartialPrice(current, liquidity, remaining, true).value;
            target <= next <= current && liquidity * (current - next) <= liquidity * (current - target)
  {
    PartialStaysAbove(current, target, liquidity, remaining, Q64);
    var denominator := liquidity + remaining * current / Q64;
    QuotientAtLeast(liquidity * current, denominator, target);
    QuotientBounds(remaining * current, Q64);
    QuotientAntitone(liquidity * current, liquidity, denominator);
    var next := liquidity * current / denominator;
    assert liquidity * current / liquidity <= current by { QuotientBelow(liquidity * current, liquidity, current + 1); }
    MulMono(current - next, current - target, liquidity);
  }

  lemma ShortMeansLiquid(current: u128, target: u128, liquidity: u128, remaining: u128, aToB: bool)
    requires MaxIn(current, target, liquidity, aToB).Some? && remaining < MaxIn(current, target, liquidity, aToB).value
    ensures liquidity > 0
  {
    if liquidity == 0 { EmptyRangeTakesNothing(current, target, aToB); }
  }

  lemma SellingNeeds(current: u128, target: u128, liquidity: u128, remaining: u128)
    ensures var maxIn := MaxIn(current, target, liquidity, true);
            && (ComputeSwapStep(current, target, liquidity, remaining, true).Some? <==>
                  maxIn.Some? && (remaining < maxIn.value ==> PartialPrice(current, liquidity, remaining, true).Some?))
            && (maxIn.Some? && remaining < maxIn.value ==> liquidity > 0)
  {
    hide MaxIn, PartialPrice, AmountOut;
    SellingMaxIn(current, target, liquidity);
    var maxIn := MaxIn(current, target, liquidity, true);
    if maxIn.Some? {
      if remaining >= maxIn.value {
        SellingPays(current, target, liquidity);
      } else {
        ShortMeansLiquid(current, target, liquidity, remaining, true);
        if PartialPrice(current, liquidity, remaining, true).Some? {
          PartialStaysAboveTarget(current, target, liquidity, remaining);
          SellingPays(current, PartialPrice(current, liquidity, remaining, true).value, liquidity);
        }
      }
    }
  }

  /** Selling A, a step is refused exactly for a target above the price or zero, and for a product beyond 128 bits. */
  lemma SellingRefusedExactlyWhen(current: u128, target: u128, liquidity: u128, remaining: u128)
    ensures ComputeSwapStep(current, target, liquidity, remaining, true).Some? <==>
              && 0 < target <= current
              && liquidity * (current - target) <= U128_MAX
              && (liquidity * (current - target) / current) * Q64 <= U128_MAX
              && (remaining < (liquidity * (current - target) / current) * Q64 / target ==>
                    && remaining * current <= U128_MAX && liquidity * current <= U128_MAX
                    && liquidity + remaining * current / Q64 <= U128_MAX)
  {
    hide ComputeSwapStep, MaxIn, PartialPrice;
    SellingNeeds(current, target, liquidity, remaining);
    SellingMaxIn(current, target, liquidity);
    SellingPrice(current, liquidity, remaining);
    MulMono(0, current, remaining);
    QuotientBounds(remaining * current, Q64);
  }

  lemma BuyingMaxIn(current: u128, target: u128, liquidity: u128)
    ensures MaxIn(current, target, liquidity, false) ==
            if current <= target && liquidity * (target - current) <= U128_MAX
            then Some(liquidity * (target - current) / Q64) else None
  {
    if current <= target {
      MulMono(0, target - current, liquidity);
      QuotientBounds(liquidity * (target - current), Q64);
    }
  }

  lemma BuyingPrice(current: u128, target: u128, liquidity: u128, remaining: u128)
    requires current <= target && liquidity * (target - current) <= U128_MAX
    requires remaining < liquidity * (target - current) / Q64
    ensures liquidity > 0
    ensures var next := current + remaining * Q64 / liquidity;
            && PartialPrice(current, liquidity, remaining, false) == Some(next)
            && next <= target && liquidity * (next - current) <= U128_MAX
  {
    QuotientBounds(liquidity * (target - current), Q64);
    assert liquidity > 0;
    PartialStaysBelow(current, target, liquidity, remaining, Q64);
    QuotientBounds(remaining * Q64, liquidity);
    MulMono(remaining, liquidity * (target - current) / Q64, Q64);
    MulMono(remaining * Q64 / liquidity, target - current, liquidity);
  }

  lemma BuyingPays(current: u128, next: u128, liquidity: u128)
    requires current <= next && liquidity * (next - current) <= U128_MAX
    ensures AmountOut(current, next, liquidity, false).Some? <==>
              0 < current && (liquidity * (next - current) / current) * Q64 <= U128_MAX
  {
    if current > 0 {
      QuotientBounds(liquidity * (next - current), current);
    }
  }

  lemma BuyingPaysFor(price: u128, delta: u128, liquidity: u128)
    requires price + delta <= U128_MAX && liquidity * delta <= U128_MAX
    ensures AmountOut(price, price + delta, liquidity, false) ==
            if price == 0 || (liquidity * delta / price) * Q64 > U128_MAX then None
            else Some((liquidity * delta / price) * Q64 / (price + delta))
  {
    if price > 0 {
      QuotientBounds(liquidity * delta, price);
    }
  }

  lemma BuyingNeeds(current: u128, target: u128, liquidity: u128, remaining: u128, next: u128)
    requires current <= target && liquidity * (target - current) <= U128_MAX
    requires var short := remaining < liquidity * (target - current) / Q64;
             && (!short ==> next == target)
             && (short ==> PartialPrice(current, liquidity, remaining, false) == Some(next))
    ensures ComputeSwapStep(current, target, liquidity, remaining, false).Some? <==> AmountOut(current, next, liquidity, false).Some?
  {
    hide MaxIn, PartialPrice, AmountOut;
    BuyingMaxIn(current, target, liquidity);
  }

  lemma BuyingNeedsRange(current: u128, target: u128, liquidity: u128, remaining: u128)
    requires current > target || liquidity * (target - current) > U128_MAX
    ensures ComputeSwapStep(current, target, liquidity, remaining, false).None?
  {
    hide MaxIn, PartialPrice, AmountOut;
    BuyingMaxIn(current, target, liquidity);
  }

  /** The price that buying with this much comes to: the exact one rounded down, or the target. */
  function PriceBought(current: u128, target: u128, liquidity: u128, remaining: u128): nat {
    if liquidity > 0 && current <= target && remaining < liquidity * (target - current) / Q64
    then current + remaining * Q64 / liquidity else target
  }

  lemma BuyingStopsShort(current: u128, target: u128, liquidity: u128, remaining: u128) returns (next: u128)
    requires current <= target && liquidity * (target - current) <= U128_MAX
    requires remaining < liquidity * (target - current) / Q64
    ensures next == PriceBought(current, target, liquidity, remaining) && current <= next <= target
    ensures PartialPrice(current, liquidity, remaining, false) == Some(next) && liquidity * (next - current) <= U128_MAX
  {
    hide PartialPrice;
    BuyingPrice(current, target, liquidity, remaining);
    QuotientBounds(remaining * Q64, liquidity);
    next := current + remaining * Q64 / liquidity;
  }

  lemma BuyingReaches(current: u128, target: u128, liquidity: u128, remaining: u128)
    requires current <= target && liquidity * (target - current) <= U128_MAX
    ensures var next := PriceBought(current, target, liquidity, remaining);
            && current <= next <= target && liquidity * (next - current) <= U128_MAX
            && (ComputeSwapStep(current, target, liquidity, remaining, false).Some? <==>
                  AmountOut(current, next, liquidity, false).Some?)
  {
    hide ComputeSwapStep, PartialPrice, AmountOut;
    if remaining < liquidity * (target - current) / Q64 {
      var next := BuyingStopsShort(current, target, liquidity, remaining);
      BuyingNeeds(current, target, liquidity, remaining, next);
    } else {
      BuyingNeeds(current, target, liquidity, remaining, target);
    }
  }

  /** Buying A, a step is refused exactly for a target below the price, a price of zero, liquidity too large for the
      range, or an output too large for the price reached. */
  lemma BuyingRefusedExactlyWhen(current: u128, target: u128, liquidity: u128, remaining: u128)
    ensures var next := PriceBought(current, target, liquidity, remaining);
            ComputeSwapStep(current, target, liquidity, remaining, false).Some? <==>
              && 0 < current <= target
              && liquidity * (target - current) <= U128_MAX
              && (liquidity * (next - current) / current) * Q64 <= U128_MAX
  {
    hide ComputeSwapStep, PriceBought, AmountOut;
    if current <= target && liquidity * (target - current) <= U128_MAX {
      BuyingReaches(current, target, liquidity, remaining);
      BuyingPays(current, PriceBought(current, target, liquidity, remaining), liquidity);
    } else {
      BuyingNeedsRange(current, target, liquidity, remaining);
    }
  }

  lemma StepsStay(current: u128, target: u128, liquidity: u128, remaining: u128, aToB: bool)
    ensures match ComputeSwapStep(current, target, liquidity, remaining, aToB)
            case None => true
            case Some(s) => if aToB then s.next <= current else current <= s.next
  {
    hide ComputeSwapStep;
    if ComputeSwapStep(current, target, liquidity, remaining, aToB).Some? {
      StepContained(current, target, liquidity, remaining, aToB);
    }
  }

  /** The quote in one unbounded range is the step toward any target the input does not reach, unless the price stays
      where it is or the output exceeds 64 bits. */
  lemma SingleRangeIsStep(feeBps: u64, price: u128, liquidity: u128, input: u64, aToB: bool, target: u128)
    requires AfterFee(input, feeBps).Some? && AfterFee(input, feeBps).value > 0
    ensures var amount := AfterFee(input, feeBps).value;
            var step := ComputeSwapStep(price, target, liquidity, amount, aToB);
            step.Some? && amount < MaxIn(price, target, liquidity, aToB).value ==>
              SingleRangeOutput(feeBps, price, liquidity, input, aToB) ==
                if step.value.next == price || step.value.amountOut > U64_MAX then None else Some(step.value.amountOut)
  {
    hide AfterFee, AmountOut, PartialPrice, MaxIn;
    StepsStay(price, target, liquidity, AfterFee(input, feeBps).value, aToB);
  }

  /** The input moves the price to `next`, and that move pays `out`, both up to rounding. */
  predicate RangePays(price: u128, liquidity: u128, amount: u128, aToB: bool, next: u128, out: u64) {
    if aToB then
      var scale := liquidity * Q64 + amount * price;
      && next < price
      && next * scale - next * Q64 <= liquidity * price * Q64 < (next + 1) * scale
      && out * Q64 <= liquidity * (price - next) < (out + 1) * Q64
    else
      && price < next
      && (next - price) * liquidity <= amount * Q64 < (next - price + 1) * liquidity
      && out * (price * next) <= liquidity * (next - price) * Q64 < (out + 1) * (price * next) + Q64 * price
  }

  /** Whatever the steps toward any limit do, the quote in one unbounded range is, with both roundings bounded, what the
      curve pays for the move to the price the input buys. */
  lemma SingleRangeRounding(feeBps: u64, price: u128, liquidity: u128, input: u64, aToB: bool)
    requires AfterFee(input, feeBps).Some? && AfterFee(input, feeBps).value > 0
    ensures match SingleRangeOutput(feeBps, price, liquidity, input, aToB)
            case None => true
            case Some(out) => exists next: u128 :: RangePays(price, liquidity, AfterFee(input, feeBps).value, aToB, next, out)
  {
    hide AfterFee;
    var amount := AfterFee(input, feeBps).value;
    var out := SingleRangeOutput(feeBps, price, liquidity, input, aToB);
    if out.Some? {
      var next := PartialPrice(price, liquidity, amount, aToB).value;
      PartialPriceRounding(price, liquidity, amount, aToB);
      if aToB {
        QuotientBounds(liquidity * (price - next), Q64);
      } else {
        DoubleFloorBounds(liquidity, next - price, price, Q64, next);
      }
      assert RangePays(price, liquidity, amount, aToB, next, out.value);
    }
  }

  lemma PriceFallsExactlyWhen(l: nat, p: nat, scaled: nat)
    requires l + scaled > 0
    ensures l * p / (l + scaled) < p <==> p * scaled > 0
  {
    MulDistribute(p, l, scaled);
    QuotientBounds(l * p, l + scaled);
    if p * scaled > 0 {
      QuotientBelow(l * p, l + scaled, p);
    } else {
      QuotientAtLeast(l * p, l + scaled, p);
    }
  }

  /** Selling A in one unbounded range is refused exactly if a product goes beyond 128 bits, the input is too small to
      move the price, or the output exceeds 64 bits. */
  lemma SellingInRangeRefusedExactlyWhen(feeBps: u64, price: u128, liquidity: u128, input: u64)
    requires AfterFee(input, feeBps).Some? && AfterFee(input, feeBps).value > 0
    ensures var amount := AfterFee(input, feeBps).value;
            SingleRangeOutput(feeBps, price, liquidity, input, true).None? <==>
              || amount * price > U128_MAX || liquidity * price > U128_MAX || liquidity + amount * price / Q64 > U128_MAX
              || amount * price < Q64
              || liquidity * (price - liquidity * price / (liquidity + amount * price / Q64)) / Q64 > U64_MAX
  {
    hide AfterFee, PartialPrice, AmountOut;
    var amount := AfterFee(input, feeBps).value;
    MulMono(0, price, amount);
    var product := amount * price;
    var scaled := product / Q64;
    SellingPrice(price, liquidity, amount);
    QuotientBounds(product, Q64);
    if product >= Q64 { QuotientAtLeast(product, Q64, 1); } else { QuotientBelow(product, Q64, 1); }
    var moved := PartialPrice(price, liquidity, amount, true);
    if moved.Some? {
      PriceFallsExactlyWhen(liquidity, price, scaled);
      assert price * scaled > 0 <==> scaled > 0 by {
        if scaled > 0 {
          assert price > 0;
          MulStrict(0, price, scaled);
        }
      }
      if moved.value < price { SellingPays(price, moved.value, liquidity); }
    }
  }

  lemma PriceUnbounded(price: u128, liquidity: u128, amount: u128)
    requires amount <= U64_MAX
    ensures PartialPrice(price, liquidity, amount, false) ==
            if liquidity == 0 || price + amount * Q64 / liquidity > U128_MAX then None else Some(price + amount * Q64 / liquidity)
  {
    if liquidity > 0 { QuotientBounds(amount * Q64, liquidity); }
  }

  /** Buying A in one unbounded range is refused exactly if there is no price or liquidity, the input is too small to
      move the price, the price reached or the product behind the output goes beyond 128 bits, or the output beyond 64. */
  lemma BuyingInRangeRefusedExactlyWhen(feeBps: u64, price: u128, liquidity: u128, input: u64)
    requires AfterFee(input, feeBps).Some? && AfterFee(input, feeBps).value > 0
    ensures var amount := AfterFee(input, feeBps).value;
            SingleRangeOutput(feeBps, price, liquidity, input, false).None? <==>
              || price == 0 || liquidity == 0 || amount * Q64 < liquidity
              || price + amount * Q64 / liquidity > U128_MAX
              || (liquidity * (amount * Q64 / liquidity) / price) * Q64 > U128_MAX
              || (liquidity * (amount * Q64 / liquidity) / price) * Q64 / (price + amount * Q64 / liquidity) > U64_MAX
  {
    AfterFeeExactly(input, feeBps);
    hide AfterFee, PartialPrice, AmountOut;
    var amount := AfterFee(input, feeBps).value;
    PriceUnbounded(price, liquidity, amount);
    if liquidity > 0 {
      var scaled := amount * Q64;
      var delta := scaled / liquidity;
      QuotientBounds(scaled, liquidity);
      if scaled >= liquidity { QuotientAtLeast(scaled, liquidity, 1); } else { QuotientBelow(scaled, liquidity, 1); }
      if price + delta <= U128_MAX { BuyingPaysFor(price, delta, liquidity); }
    }
  }

  // ---- Two runs: does more input give more output? ----

  /** Of two steps from one state, the smaller uses its amount up or both make the very same swap. */
  lemma StepsPart(current: u128, target: u128, liquidity: u128, r1: u128, r2: u128, aToB: bool)
    requires r1 <= r2
    ensures var step1 := ComputeSwapStep(current, target, liquidity, r1, aToB);
            var step2 := ComputeSwapStep(current, target, liquidity, r2, aToB);
            step1.Some? && step2.Some? ==> step1.value.amountIn == r1 || step1 == step2
  {
    hide MaxIn, PartialPrice, AmountOut;
  }

  /** Selling A: a larger remaining amount never pays less and leaves the price no higher; either the
      smaller one is used up or both make the very same swap. */
  lemma StepMonotone(current: u128, target: u128, liquidity: u128, r1: u128, r2: u128)
    requires r1 <= r2
    ensures var step1 := ComputeSwapStep(current, target, liquidity, r1, true);
            var step2 := ComputeSwapStep(current, target, liquidity, r2, true);
            step1.Some? && step2.Some? ==>
              && step1.value.amountOut <= step2.value.amountOut && step2.value.next <= step1.value.next
              && (step1.value.amountIn == r1 || step1 == step2)
  {
    if ComputeSwapStep(current, target, liquidity, r1, true).None? { return; }
    if ComputeSwapStep(current, target, liquidity, r2, true).None? { return; }
    var maxIn := MaxIn(current, target, liquidity, true).value;
    StepContained(current, target, liquidity, r1, true);
    StepContained(current, target, liquidity, r2, true);
    var s1 := ComputeSwapStep(current, target, liquidity, r1, true).value;
    var s2 := ComputeSwapStep(current, target, liquidity, r2, true).value;
    if r2 < maxIn {
      MulMono(r1, r2, current);
      QuotientMono(r1 * current, r2 * current, Q64);
      QuotientBounds(r1 * current, Q64);
      QuotientAntitone(liquidity * current, liquidity + r1 * current / Q64, liquidity + r2 * current / Q64);
    }
    MulMono(current - s1.next, current - s2.next, liquidity);
    QuotientMono(liquidity * (current - s1.next), liquidity * (current - s2.next), Q64);
  }

  /** Buying A the same is false: the two floors hold the numerator still while the divisor grows.
      At price 4.0 (Q64.64) and liquidity 8, input 32 pays 1 and input 33 pays 0. */
  lemma BuyingStepNotMonotone()
    ensures var price: u128 := 4 * Q64;
            && ComputeSwapStep(price, MAX_SQRT_PRICE, 8, 32, false) == Some(Step(32, 1, 8 * Q64))
            && ComputeSwapStep(price, MAX_SQRT_PRICE, 8, 33, false) == Some(Step(33, 0, 8 * Q64 + Q64 / 8))
  {
  }

  lemma FractionOrder(p: nat, d1: nat, d2: nat)
    requires d1 <= d2
    ensures d1 * (p + d2) <= d2 * (p + d1)
  {
    MulDistribute(d1, p, d2);
    MulDistribute(d2, p, d1);
    MulMono(d1, d2, p);
  }

  /** `a <= w*d1/(p*t1)` and `w*d2 < b*p` with `d1*t2 <= d2*t1` give `a*t2 < b`. */
  lemma CrossMultiply(a: nat, t1: nat, t2: nat, p: nat, w: nat, d1: nat, d2: nat, b: nat)
    requires 0 < p && 0 < t1 && d1 * t2 <= d2 * t1
    requires a * (p * t1) <= w * d1 && w * d2 < b * p
    ensures a * t2 < b
  {
    var u := p * t1;
    assert u > 0 by { MulMono(1, p, t1); }
    var low, high := (a * t2) * u, b * u;
    assert low <= w * (d1 * t2) by {
      MulRegroup(a, t2, u);
      MulMono(a * u, w * d1, t2);
      MulRegroup(w, d1, t2);
    }
    assert w * (d1 * t2) <= w * (d2 * t1) by { MulMono(d1 * t2, d2 * t1, w); }
    assert w * (d2 * t1) < high by {
      MulRegroup(w, d2, t1);
      MulStrict(w * d2, b * p, t1);
      MulRegroup(b, p, t1);
    }
    CancelLt(a * t2, b, u);
  }

  /** Two double floors whose exact values are ordered differ, in the wrong direction, by less than `q/t2 + 1`. */
  lemma DoubleFloorNearlyMonotone(w: nat, d1: nat, d2: nat, p: nat, q: nat, out1: nat, out2: nat)
    requires 0 < p && d1 <= d2
    requires out1 * (p * (p + d1)) <= w * d1
    requires w * d2 < (out2 + 1) * (p * (p + d2)) + q * p
    ensures out1 * (p + d2) < (out2 + 1) * (p + d2) + q
  {
    var t1, t2 := p + d1, p + d2;
    var b := (out2 + 1) * t2 + q;
    assert w * d2 < b * p by {
      MulRegroup(out2 + 1, t2, p);
      MulRegroup(out2 + 1, p, t2);
      MulDistribute(p, (out2 + 1) * t2, q);
    }
    FractionOrder(p, d1, d2);
    CrossMultiply(out1, t1, t2, p, w, d1, d2, b);
  }

  lemma BuyingPriceMonotone(current: u128, target: u128, liquidity: u128, r1: u128, r2: u128)
    requires r1 <= r2
    ensures var step1 := ComputeSwapStep(current, target, liquidity, r1, false);
            var step2 := ComputeSwapStep(current, target, liquidity, r2, false);
            step1.Some? && step2.Some? ==> current <= step1.value.next <= step2.value.next
  {
    if ComputeSwapStep(current, target, liquidity, r1, false).None? { return; }
    if ComputeSwapStep(current, target, liquidity, r2, false).None? { return; }
    StepContained(current, target, liquidity, r1, false);
    StepContained(current, target, liquidity, r2, false);
    if r2 < MaxIn(current, target, liquidity, false).value {
      QuotientMono(r1 * Q64, r2 * Q64, liquidity);
    }
  }

  /** What does hold: with N2 the price the larger input reaches, it pays at most `Q/N2 + 1` less. */
  lemma BuyingStepNearlyMonotone(current: u128, target: u128, liquidity: u128, r1: u128, r2: u128)
    requires r1 <= r2
    ensures var step1 := ComputeSwapStep(current, target, liquidity, r1, false);
            var step2 := ComputeSwapStep(current, target, liquidity, r2, false);
            step1.Some? && step2.Some? ==>
              && step1.value.next <= step2.value.next
              && step1.value.amountOut * step2.value.next < (step2.value.amountOut + 1) * step2.value.next + Q64
  {
    if ComputeSwapStep(current, target, liquidity, r1, false).None? { return; }
    if ComputeSwapStep(current, target, liquidity, r2, false).None? { return; }
    BuyingPriceMonotone(current, target, liquidity, r1, r2);
    var s1 := ComputeSwapStep(current, target, liquidity, r1, false).value;
    var s2 := ComputeSwapStep(current, target, liquidity, r2, false).value;
    OutputRounding(current, target, liquidity, r1, false);
    OutputRounding(current, target, liquidity, r2, false);
    var d1, d2 := s1.next - current, s2.next - current;
    MulRegroup(liquidity, d1, Q64);
    MulRegroup(liquidity, d2, Q64);
    DoubleFloorNearlyMonotone(liquidity * Q64, d1, d2, current, Q64, s1.amountOut, s2.amountOut);
  }

  lemma GapCovers(low: nat, high: nat, d1: nat, d2: nat, p: nat)
    requires high - low >= p + d1 && low * d2 == high * d1
    ensures low * (p + d2) + p * (p + d1) <= high * (p + d1)
  {
    MulDistribute(low, p, d2);
    MulDistribute(high, p, d1);
    MulMono(p + d1, high - low, p);
    MulDistribute(p, high - low, low);
  }

  lemma FloorsBetween(low: nat, high: nat, t1: nat, t2: nat, p: nat, a: nat, b: nat)
    requires 0 < p && a * p <= low && high < b * p + p
    requires low * t2 + p * t1 <= high * t1
    ensures a * t2 <= b * t1
  {
    assert (a * t2) * p <= low * t2 by {
      MulRegroup(a, t2, p);
      MulRegroup(a, p, t2);
      MulMono(a * p, low, t2);
    }
    assert high * t1 <= (b * t1) * p + p * t1 by {
      MulMono(high, b * p + p, t1);
      MulDistribute(t1, b * p, p);
      MulRegroup(b, p, t1);
    }
    CancelLe(a * t2, b * t1, p);
  }

  /** `a` and `b` are the floors of `l*d1/p` and `l*d2/p`. */
  lemma FloorsCross(l: nat, d1: nat, d2: nat, p: nat, a: nat, b: nat)
    requires 0 < p && d1 <= d2 && l * (d2 - d1) >= p + d1
    requires a * p <= l * d1 && l * d2 < b * p + p
    ensures a * (p + d2) <= b * (p + d1)
  {
    var low, high := l * d1, l * d2;
    assert high - low >= p + d1 by { MulDistribute(l, d1, d2 - d1); }
    assert low * d2 == high * d1 by {
      MulRegroup(l, d1, d2);
      MulRegroup(l, d2, d1);
    }
    GapCovers(low, high, d1, d2, p);
    FloorsBetween(low, high, p + d1, p + d2, p, a, b);
  }

  lemma DoubleFloorMonotoneWhenApart(l: nat, d1: nat, d2: nat, p: nat, q: nat)
    requires 0 < p && 0 < q && d1 <= d2 && l * (d2 - d1) >= p + d1
    ensures (l * d1 / p) * q / (p + d1) <= (l * d2 / p) * q / (p + d2)
  {
    var a, b, t1, t2 := l * d1 / p, l * d2 / p, p + d1, p + d2;
    QuotientBounds(l * d1, p);
    QuotientBounds(l * d2, p);
    FloorsCross(l, d1, d2, p, a, b);
    QuotientBounds(a * q, t1);
    var out := a * q / t1;
    // out * t1 <= a * q and a * t2 <= b * t1 give out * t2 <= b * q
    assert (out * t2) * t1 <= (b * q) * t1 by {
      MulRegroup(out, t2, t1);
      MulRegroup(out, t1, t2);
      MulMono(out * t1, a * q, t2);
      MulRegroup(a, q, t2);
      MulMono(a * t2, b * t1, q);
      MulRegroup(b, t1, q);
    }
    CancelLe(out * t2, b * q, t1);
    QuotientAtLeast(b * q, t2, out);
  }

  /** Buying is monotone once the inputs are far enough apart: when the price difference they make, times the
      liquidity, is at least the price the smaller one reaches. */
  lemma BuyingStepMonotoneWhenApart(current: u128, target: u128, liquidity: u128, r1: u128, r2: u128)
    requires r1 <= r2
    ensures var step1 := ComputeSwapStep(current, target, liquidity, r1, false);
            var step2 := ComputeSwapStep(current, target, liquidity, r2, false);
            step1.Some? && step2.Some? && liquidity * (step2.value.next - step1.value.next) >= step1.value.next ==>
              step1.value.amountOut <= step2.value.amountOut
  {
    if ComputeSwapStep(current, target, liquidity, r1, false).None? { return; }
    if ComputeSwapStep(current, target, liquidity, r2, false).None? { return; }
    BuyingPriceMonotone(current, target, liquidity, r1, r2);
    var s1 := ComputeSwapStep(current, target, liquidity, r1, false).value;
    var s2 := ComputeSwapStep(current, target, liquidity, r2, false).value;
    if liquidity * (s2.next - s1.next) >= s1.next {
      DoubleFloorMonotoneWhenApart(liquidity, s1.next - current, s2.next - current, current, Q64);
    }
  }
}
