/** Bin-by-bin quoting for Meteora DLMM pools: starting at the active bin, empty one bin after another, charging
    the fee on top of what each bin absorbs. */
module BinWalk {
  import opened Machine
  import opened FloorDivision

  const BINS_PER_ARRAY: int := 70
  const MAX_BINS: int := 200

  datatype Bin = Bin(amountX: u64, amountY: u64, price: u128)
  datatype BinArray = BinArray(index: int, bins: seq<Bin>)

  /** What the loop carries from one bin to the next. */
  datatype Walk = Walk(left: u64, out: u128, id: int)

  /** The first cached array with this index. */
  function FindArray(arrays: seq<BinArray>, index: int): Option<BinArray> {
    if arrays == [] then None
    else if arrays[0].index == index then Some(arrays[0])
    else FindArray(arrays[1..], index)
  }

  function FindBin(arrays: seq<BinArray>, id: int): Option<Bin> {
    var index := ShiftedDiv(id, BINS_PER_ARRAY);
    var cached :- FindArray(arrays, index);
    var offset := id - index * BINS_PER_ARRAY;
    assert 0 <= offset by { ShiftedDivIsFloor(id, BINS_PER_ARRAY); }
    if offset < |cached.bins| then Some(cached.bins[offset]) else None
  }

  /** Fee rates are over 10^9; `denominator` is what is left of 10^9 after the fee. */
  function FeeRate(feeBps: u64): nat {
    feeBps * 100_000
  }

  function FeeDenominator(feeBps: u64): nat {
    SaturatingSub(1_000_000_000, FeeRate(feeBps))
  }

  function Fee(amount: nat, feeBps: u64): nat {
    CeilDiv(amount * FeeRate(feeBps), FeeDenominator(feeBps))
  }

  function AfterFee(left: u64, feeBps: u64): u64 {
    SaturatingSub(left, Fee(left, feeBps))
  }

  /** What the bin holds of the token asked for. */
  function Liquidity(bin: Bin, xToY: bool): u64 {
    if xToY then bin.amountY else bin.amountX
  }

  function NextId(id: int, xToY: bool): int {
    if xToY then id - 1 else id + 1
  }

  /** Input after fee that empties the bin, rounded up. */
  function MaxIn(bin: Bin, xToY: bool): Option<u128>
    requires bin.price > 0
  {
    if xToY then
      var sum :- CheckedAdd(bin.amountY * Q64, bin.price - 1);
      CheckedDiv(sum, bin.price)
    else
      var product :- CheckedMul(bin.amountX, bin.price);
      assert CeilDiv(product, Q64) <= U128_MAX by { CeilDivBounds(product, Q64); }
      Some(CeilDiv(product, Q64))
  }

  /** Output of an input after fee too small to empty the bin. */
  function PartialOut(bin: Bin, amount: u64, xToY: bool): Option<u128>
    requires bin.price > 0
  {
    if xToY then
      var product :- CheckedMul(amount, bin.price);
      CheckedDiv(product, Q64)
    else
      CheckedDiv(amount * Q64, bin.price)
  }

  function AddOut(a: u128, b: u128): u128 {
    (a + b) % TWO_128
  }

  predicate Stopped(arrays: seq<BinArray>, w: Walk) {
    w.left == 0 || FindBin(arrays, w.id).None? || FindBin(arrays, w.id).value.price == 0
  }

  function VisitBin(bin: Bin, w: Walk, feeBps: u64, xToY: bool): Option<Walk>
    requires bin.price > 0
  {
    if Liquidity(bin, xToY) == 0 then Some(w.(id := NextId(w.id, xToY))) else
    var maxIn :- MaxIn(bin, xToY);
    var amount := AfterFee(w.left, feeBps);
    if amount >= maxIn then
      Some(Walk(SaturatingSub(w.left, maxIn + Fee(maxIn, feeBps)), AddOut(w.out, Liquidity(bin, xToY)), NextId(w.id, xToY)))
    else
      var out :- PartialOut(bin, amount, xToY);
      Some(Walk(0, AddOut(w.out, out), w.id))
  }

  /** The loop's variables before iteration `n`, or `None` when an earlier iteration gave up the quote. */
  function WalkAt(arrays: seq<BinArray>, start: Walk, feeBps: u64, xToY: bool, n: nat): Option<Walk> {
    if n == 0 then Some(start) else
    var w :- WalkAt(arrays, start, feeBps, xToY, n - 1);
    if Stopped(arrays, w) then Some(w) else VisitBin(FindBin(arrays, w.id).value, w, feeBps, xToY)
  }

  function BinOutput(arrays: seq<BinArray>, feeBps: u64, activeId: int, input: u64, xToY: bool): Option<u64> {
    if input == 0 then Some(0)
    else if FeeDenominator(feeBps) == 0 then None else
    var end :- WalkAt(arrays, Walk(input, 0, activeId), feeBps, xToY, MAX_BINS);
    if end.out > U64_MAX then None else Some(end.out)
  }

  lemma {:induction false} WalkSettled(arrays: seq<BinArray>, start: Walk, feeBps: u64, xToY: bool, n: nat, m: nat)
    requires n <= m
    requires var w := WalkAt(arrays, start, feeBps, xToY, n); w.Some? && Stopped(arrays, w.value)
    ensures WalkAt(arrays, start, feeBps, xToY, m) == WalkAt(arrays, start, feeBps, xToY, n)
  {
    if n == m {
    } else {
      WalkSettled(arrays, start, feeBps, xToY, n, m - 1);
    }
  }

  lemma {:induction false} WalkLost(arrays: seq<BinArray>, start: Walk, feeBps: u64, xToY: bool, n: nat, m: nat)
    requires n <= m && WalkAt(arrays, start, feeBps, xToY, n) == None
    ensures WalkAt(arrays, start, feeBps, xToY, m) == None
  {
    if n == m {
    } else {
      WalkLost(arrays, start, feeBps, xToY, n, m - 1);
    }
  }

  // ---- Facts about one bin ----

  lemma FeeMonotone(a: nat, b: nat, feeBps: u64)
    requires a <= b && FeeDenominator(feeBps) > 0
    ensures Fee(a, feeBps) <= Fee(b, feeBps)
  {
    MulMono(a, b, FeeRate(feeBps));
    CeilDivMono(a * FeeRate(feeBps), b * FeeRate(feeBps), FeeDenominator(feeBps));
  }

  lemma MaxInBounds(bin: Bin, xToY: bool)
    requires bin.price > 0 && Liquidity(bin, xToY) > 0 && MaxIn(bin, xToY).Some?
    ensures var m := MaxIn(bin, xToY).value;
            && m >= 1
            && (if xToY then bin.amountY * Q64 <= m * bin.price < bin.amountY * Q64 + bin.price
                else bin.amountX * bin.price <= m * Q64 < bin.amountX * bin.price + Q64)
  {
    if xToY {
      QuotientBounds(bin.amountY * Q64 + bin.price - 1, bin.price);
    } else {
      CeilDivBounds(bin.amountX * bin.price, Q64);
      MulMono(1, bin.amountX, bin.price);
    }
  }

  /** Emptying a bin never charges more than what is left, so the saturating subtraction is exact. */
  lemma ConsumedFits(bin: Bin, left: u64, feeBps: u64, xToY: bool)
    requires bin.price > 0 && Liquidity(bin, xToY) > 0 && FeeDenominator(feeBps) > 0
    ensures match MaxIn(bin, xToY)
            case None => true
            case Some(maxIn) => AfterFee(left, feeBps) >= maxIn ==> maxIn + Fee(maxIn, feeBps) <= left
  {
    var maxIn := MaxIn(bin, xToY);
    if maxIn.Some? && AfterFee(left, feeBps) >= maxIn.value {
      MaxInBounds(bin, xToY);
      FeeMonotone(maxIn.value, left, feeBps);
    }
  }

  /** A partial fill pays no more than the bin holds; it pays the bin's price, rounded down. */
  lemma PartialOutBounds(bin: Bin, amount: u64, xToY: bool)
    requires bin.price > 0 && Liquidity(bin, xToY) > 0 && MaxIn(bin, xToY).Some? && PartialOut(bin, amount, xToY).Some?
    requires amount < MaxIn(bin, xToY).value
    ensures PartialOut(bin, amount, xToY).value <= Liquidity(bin, xToY)
    ensures var out := PartialOut(bin, amount, xToY).value;
            if xToY then out * Q64 <= amount * bin.price < (out + 1) * Q64
            else out * bin.price <= amount * Q64 < (out + 1) * bin.price
  {
    hide MaxIn;
    MaxInBounds(bin, xToY);
    var m: u128 := MaxIn(bin, xToY).value;
    if xToY {
      assert amount * bin.price < bin.amountY * Q64 by {
        MulMono(amount, m - 1, bin.price);
        assert (m - 1) * bin.price == m * bin.price - bin.price;
      }
      QuotientBounds(amount * bin.price, Q64);
      QuotientBelow(amount * bin.price, Q64, bin.amountY + 1);
    } else {
      assert amount * Q64 < (bin.amountX + 1) * bin.price by {
        MulDistribute(bin.price, bin.amountX, 1);
      }
      QuotientBounds(amount * Q64, bin.price);
      MulDistribute(bin.price, amount * Q64 / bin.price, 1);
      QuotientBelow(amount * Q64, bin.price, bin.amountX + 1);
    }
  }

  lemma AddOutExact(a: u128, b: u128)
    requires a + b <= U128_MAX
    ensures AddOut(a, b) == a + b
  {
  }

  lemma AfterFeeUnfolds(left: u64, feeBps: u64)
    ensures AfterFee(left, feeBps) == SaturatingSub(left, CeilDiv(left * FeeRate(feeBps), FeeDenominator(feeBps)))
  {
  }

  /** The unchecked product of an amount and a fee rate stays far below 2^128. */
  lemma FeeProductFits(amount: nat, rate: nat)
    requires amount <= U64_MAX && rate < 1_000_000_000
    ensures 0 <= amount * rate <= U64_MAX * 1_000_000_000
  {
    MulMono(amount, U64_MAX, rate);
    MulMono(rate, 1_000_000_000, U64_MAX);
  }

  /** The quote as the engine runs it. Every local is a u128, so the unchecked multiplications and additions are
      proved not to overflow. */
  method BinQuote(arrays: seq<BinArray>, feeBps: u64, activeId: int, input: u64, xToY: bool) returns (r: Option<u64>)
    ensures r == BinOutput(arrays, feeBps, activeId, input, xToY)
  {
    hide AfterFee, MaxIn, PartialOut, FindBin, CeilDiv, AddOut, Liquidity, NextId;
    if input == 0 { return Some(0); }
    var totalFeeRate: u128 := FeeRate(feeBps);
    var feeDenominator: u128 := FeeDenominator(feeBps);
    if feeDenominator == 0 { return None; }

    ghost var start := Walk(input, 0, activeId);
    var amountLeft: u128, totalOut: u128, currentId := input, 0, activeId;
    var steps := 0;
    while steps < MAX_BINS
      invariant 0 <= steps <= MAX_BINS && amountLeft <= U64_MAX && totalOut <= steps * U64_MAX
      invariant WalkAt(arrays, start, feeBps, xToY, steps) == Some(Walk(amountLeft, totalOut, currentId))
    {
      var found := FindBin(arrays, currentId);
      if amountLeft == 0 || found.None? || found.value.price == 0 {
        WalkSettled(arrays, start, feeBps, xToY, steps, MAX_BINS);
        break;
      }
      var bin := found.value;
      var held := Liquidity(bin, xToY);
      if held == 0 {
        currentId := NextId(currentId, xToY);
        steps := steps + 1;
        continue;
      }
      var limit := MaxIn(bin, xToY);
      if limit.None? { WalkLost(arrays, start, feeBps, xToY, steps + 1, MAX_BINS); return None; }
      var maxInAfterFee: u128 := limit.value;
      FeeProductFits(amountLeft, totalFeeRate);
      var feeProduct: u128 := amountLeft * totalFeeRate;
      CeilDivAtMost(feeProduct, feeDenominator);
      var feeAmount: u128 := CeilDiv(feeProduct, feeDenominator);
      var amountAfterFee: u128 := SaturatingSub(amountLeft, feeAmount);
      assert amountAfterFee == AfterFee(amountLeft, feeBps) by { AfterFeeUnfolds(amountLeft, feeBps); }
      if amountAfterFee >= maxInAfterFee {
        ConsumedFits(bin, amountLeft, feeBps, xToY);
        AddOutExact(totalOut, held);
        totalOut := totalOut + held;
        FeeProductFits(maxInAfterFee, totalFeeRate);
        var consumedProduct: u128 := maxInAfterFee * totalFeeRate;
        var consumedFee: u128 := CeilDiv(consumedProduct, feeDenominator);
        var consumed: u128 := maxInAfterFee + consumedFee;
        amountLeft := SaturatingSub(amountLeft, consumed);
        currentId := NextId(currentId, xToY);
      } else {
        var out := PartialOut(bin, amountAfterFee, xToY);
        if out.None? { WalkLost(arrays, start, feeBps, xToY, steps + 1, MAX_BINS); return None; }
        PartialOutBounds(bin, amountAfterFee, xToY);
        AddOutExact(totalOut, out.value);
        totalOut := totalOut + out.value;
        amountLeft := 0;
      }
      steps := steps + 1;
    }
    if totalOut > U64_MAX { return None; }
    return Some(totalOut);
  }
}
