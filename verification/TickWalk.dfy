/** Multi-tick quoting for concentrated-liquidity pools (Orca Whirlpool; the Raydium file is the same code).

    The walk visits the initialized ticks lying ahead of the price, swapping inside each constant-liquidity
    range and adding or removing a tick's `liquidityNet` when it is crossed. `sqrtAt` stands for the floating-point
    conversion from a tick index to a square-root price: any strictly increasing table. */
module TickWalk {
  import opened Machine
  import opened SwapStep

  const MAX_TICK: int := 443636
  const MAX_STEPS: int := 50

  datatype Tick = Tick(index: int, liquidityNet: i128, liquidityGross: u128)
  datatype TickArray = TickArray(startIndex: int, ticks: seq<Tick>)

  /** What the loop carries from one tick to the next. */
  datatype Walk = Walk(remaining: u128, output: u128, price: u128, liquidity: u128)

  type PriceTable = int -> u128

  function TickPrice(sqrtAt: PriceTable, tick: int): Option<u128> {
    if -MAX_TICK <= tick <= MAX_TICK then Some(sqrtAt(tick)) else None
  }

  // ---- The ticks to visit ----

  function Flatten(arrays: seq<TickArray>): seq<Tick> {
    if arrays == [] then [] else arrays[0].ticks + Flatten(arrays[1..])
  }

  /** Initialized ticks on the side of `currentTick` that the price moves to. */
  function Ahead(ticks: seq<Tick>, currentTick: int, aToB: bool): seq<Tick> {
    if ticks == [] then [] else
    var rest := Ahead(ticks[1..], currentTick, aToB);
    var t := ticks[0];
    if t.liquidityGross > 0 && (if aToB then t.index <= currentTick else t.index > currentTick)
    then [t] + rest else rest
  }

  predicate Before(a: Tick, b: Tick, aToB: bool) {
    if aToB then a.index > b.index else a.index < b.index
  }

  /** Places `t` among sorted ticks, in front of those equal to it, as a stable sort from the right does. */
  function Insert(t: Tick, sorted: seq<Tick>, aToB: bool): seq<Tick> {
    if sorted == [] then [t]
    else if Before(sorted[0], t, aToB) then [sorted[0]] + Insert(t, sorted[1..], aToB)
    else [t] + sorted
  }

  /** The ticks in the order the price meets them. */
  function Sorted(ticks: seq<Tick>, aToB: bool): seq<Tick> {
    if ticks == [] then [] else Insert(ticks[0], Sorted(ticks[1..], aToB), aToB)
  }

  function Path(arrays: seq<TickArray>, currentTick: int, aToB: bool): seq<Tick> {
    Sorted(Ahead(Flatten(arrays), currentTick, aToB), aToB)
  }

  // ---- One iteration, and the state before iteration n ----

  /** `(liquidity as i128).checked_sub(net)? as u128`, or `checked_add` when the price rises. */
  function Cross(liquidity: u128, net: i128, aToB: bool): Option<u128> {
    var sum := if aToB then AsI128(liquidity) - net else AsI128(liquidity) + net;
    if -TWO_127 <= sum < TWO_127 then Some(AsU128(sum)) else None
  }

  /** The tick's price is not ahead of the current price. */
  predicate NotAhead(target: u128, price: u128, aToB: bool) {
    if aToB then target >= price else target <= price
  }

  function AddOutput(a: u128, b: u128): u128 {
    (a + b) % TWO_128
  }

  function VisitTick(sqrtAt: PriceTable, w: Walk, tick: Tick, aToB: bool): Option<Walk> {
    var target :- TickPrice(sqrtAt, tick.index);
    if NotAhead(target, w.price, aToB) then
      var crossed :- Cross(w.liquidity, tick.liquidityNet, aToB);
      Some(w.(liquidity := crossed))
    else if w.liquidity == 0 then
      var crossed :- Cross(w.liquidity, tick.liquidityNet, aToB);
      Some(w.(price := target, liquidity := crossed))
    else
      var step :- ComputeSwapStep(w.price, target, w.liquidity, w.remaining, aToB);
      var moved := Walk(SaturatingSub(w.remaining, step.amountIn), AddOutput(w.output, step.amountOut),
                        step.next, w.liquidity);
      if step.next == target then
        var crossed :- Cross(w.liquidity, tick.liquidityNet, aToB);
        Some(moved.(liquidity := crossed))
      else Some(moved)
  }

  /** The loop's variables before iteration `n`, or `None` when an earlier iteration gave up the quote.
      Once the input is used up, or 50 ticks were visited, nothing changes any more. */
  function WalkAt(sqrtAt: PriceTable, path: seq<Tick>, start: Walk, aToB: bool, n: nat): Option<Walk>
    requires n <= |path|
  {
    if n == 0 then Some(start) else
    var w :- WalkAt(sqrtAt, path, start, aToB, n - 1);
    if w.remaining == 0 || n - 1 >= MAX_STEPS then Some(w) else VisitTick(sqrtAt, w, path[n - 1], aToB)
  }

  /** The swap in the last range, up to the price limit. */
  function LastStep(w: Walk, aToB: bool): Option<Step> {
    ComputeSwapStep(w.price, if aToB then MIN_SQRT_PRICE else MAX_SQRT_PRICE, w.liquidity, w.remaining, aToB)
  }

  /** A failing last step is dropped, not reported. */
  function LastRange(w: Walk, aToB: bool): u128 {
    if w.remaining > 0 && w.liquidity > 0 && LastStep(w, aToB).Some?
    then AddOutput(w.output, LastStep(w, aToB).value.amountOut) else w.output
  }

  function MultiTickOutput(sqrtAt: PriceTable, feeBps: u64, currentTick: int, price: u128, liquidity: u128,
                           arrays: seq<TickArray>, input: u64, aToB: bool): Option<u64> {
    var amount :- AfterFee(input, feeBps);
    if amount == 0 then Some(0) else
    var path := Path(arrays, currentTick, aToB);
    var end :- WalkAt(sqrtAt, path, Walk(amount, 0, price, liquidity), aToB, |path|);
    var total := LastRange(end, aToB);
    if total > U64_MAX then None else Some(total)
  }

  lemma {:induction false} WalkSettled(sqrtAt: PriceTable, path: seq<Tick>, start: Walk, aToB: bool, n: nat, m: nat)
    requires n <= m <= |path|
    requires var w := WalkAt(sqrtAt, path, start, aToB, n);
             w.Some? && (w.value.remaining == 0 || n >= MAX_STEPS)
    ensures WalkAt(sqrtAt, path, start, aToB, m) == WalkAt(sqrtAt, path, start, aToB, n)
  {
    if n == m {
    } else {
      WalkSettled(sqrtAt, path, start, aToB, n, m - 1);
    }
  }

  lemma {:induction false} WalkLost(sqrtAt: PriceTable, path: seq<Tick>, start: Walk, aToB: bool, n: nat, m: nat)
    requires n <= m <= |path|
    requires WalkAt(sqrtAt, path, start, aToB, n) == None
    ensures WalkAt(sqrtAt, path, start, aToB, m) == None
  {
    if n == m {
    } else {
      WalkLost(sqrtAt, path, start, aToB, n, m - 1);
    }
  }

  /** The quote as the engine runs it. */
  method MultiTickQuote(sqrtAt: PriceTable, feeBps: u64, currentTick: int, price: u128, liquidity: u128,
                        arrays: seq<TickArray>, input: u64, aToB: bool) returns (r: Option<u64>)
    ensures r == MultiTickOutput(sqrtAt, feeBps, currentTick, price, liquidity, arrays, input, aToB)
  {
    hide ComputeSwapStep, Cross, AddOutput, AfterFee, Path;
    var fee := AfterFee(input, feeBps);
    if fee.None? { return None; }
    var remaining: u128 := fee.value;
    if remaining == 0 { return Some(0); }

    var totalOutput: u128, currentPrice: u128, currentLiquidity: u128 := 0, price, liquidity;
    ghost var start := Walk(remaining, 0, price, liquidity);
    var path := Path(arrays, currentTick, aToB);
    var steps := 0;
    while steps < |path|
      invariant 0 <= steps <= |path|
      invariant WalkAt(sqrtAt, path, start, aToB, steps)
             == Some(Walk(remaining, totalOutput, currentPrice, currentLiquidity))
    {
      if remaining == 0 || steps >= MAX_STEPS {
        WalkSettled(sqrtAt, path, start, aToB, steps, |path|);
        break;
      }
      var tick := path[steps];
      var target := TickPrice(sqrtAt, tick.index);
      if target.None? { WalkLost(sqrtAt, path, start, aToB, steps + 1, |path|); return None; }
      var crossed := Cross(currentLiquidity, tick.liquidityNet, aToB);
      if NotAhead(target.value, currentPrice, aToB) {
        if crossed.None? { WalkLost(sqrtAt, path, start, aToB, steps + 1, |path|); return None; }
        currentLiquidity := crossed.value;
        steps := steps + 1;
        continue;
      }
      if currentLiquidity == 0 {
        if crossed.None? { WalkLost(sqrtAt, path, start, aToB, steps + 1, |path|); return None; }
        currentPrice := target.value;
        currentLiquidity := crossed.value;
        steps := steps + 1;
        continue;
      }
      var step := ComputeSwapStep(currentPrice, target.value, currentLiquidity, remaining, aToB);
      if step.None? { WalkLost(sqrtAt, path, start, aToB, steps + 1, |path|); return None; }
      remaining := SaturatingSub(remaining, step.value.amountIn);
      totalOutput := AddOutput(totalOutput, step.value.amountOut);
      currentPrice := step.value.next;
      if currentPrice == target.value {
        if crossed.None? { WalkLost(sqrtAt, path, start, aToB, steps + 1, |path|); return None; }
        currentLiquidity := crossed.value;
      }
      steps := steps + 1;
    }

    if remaining > 0 && currentLiquidity > 0 {
      var last := LastStep(Walk(remaining, totalOutput, currentPrice, currentLiquidity), aToB);
      if last.Some? { totalOutput := AddOutput(totalOutput, last.value.amountOut); }
    }
    if totalOutput > U64_MAX { return None; }
    return Some(totalOutput);
  }
}
