/** What the bin walk conserves, and how two walks compare. */
module BinWalkLaws {
  import opened Machine
  import opened BinWalk
  import opened FloorDivision

  // ---- Which bin belongs to an id ----

  /** Array `k`, the first with its index, holds the bin of this id: 70 ids an array, counted up from 70 times its index. */
  ghost predicate HoldsBinAt(arrays: seq<BinArray>, k: int, id: int, bin: Bin) {
    && 0 <= k < |arrays| && (forall i :: 0 <= i < k ==> arrays[i].index != arrays[k].index)
    && arrays[k].index * 70 <= id < arrays[k].index * 70 + 70
    && id - arrays[k].index * 70 < |arrays[k].bins| && arrays[k].bins[id - arrays[k].index * 70] == bin
  }

  ghost predicate HoldsBin(arrays: seq<BinArray>, id: int, bin: Bin) {
    exists k :: HoldsBinAt(arrays, k, id, bin)
  }

  lemma {:induction false} FindArrayIsFirst(arrays: seq<BinArray>, index: int) returns (k: nat)
    ensures k <= |arrays| && (forall i :: 0 <= i < k ==> arrays[i].index != index)
    ensures FindArray(arrays, index) == if k < |arrays| then Some(arrays[k]) else None
    ensures k < |arrays| ==> arrays[k].index == index
  {
    if arrays == [] || arrays[0].index == index {
      k := 0;
    } else {
      k := FindArrayIsFirst(arrays[1..], index);
      k := k + 1;
    }
  }

  /** The lookup finds exactly the bin that belongs to the id. */
  lemma FindBinExactly(arrays: seq<BinArray>, id: int, bin: Bin)
    ensures FindBin(arrays, id) == Some(bin) <==> HoldsBin(arrays, id, bin)
  {
    var index := ShiftedDiv(id, BINS_PER_ARRAY);
    ShiftedDivIsFloor(id, BINS_PER_ARRAY);
    var first := FindArrayIsFirst(arrays, index);
    if FindBin(arrays, id) == Some(bin) {
      assert HoldsBinAt(arrays, first, id, bin);
    }
    if k :| HoldsBinAt(arrays, k, id, bin) {
      FloorUnique(id, BINS_PER_ARRAY, index, arrays[k].index);
      assert k == first;
    }
  }

  /** What one visited bin took and paid: `gross` input, of which `net` was swapped and the rest is fee. */
  datatype Fill = Fill(id: int, bin: Bin, gross: u64, net: u64, out: u128)

  function FillOf(bin: Bin, w: Walk, feeBps: u64, xToY: bool): seq<Fill>
    requires bin.price > 0 && FeeDenominator(feeBps) > 0
  {
    if Liquidity(bin, xToY) == 0 || MaxIn(bin, xToY).None? then [] else
    var maxIn := MaxIn(bin, xToY).value;
    var amount := AfterFee(w.left, feeBps);
    if amount >= maxIn then
      assert maxIn + Fee(maxIn, feeBps) <= w.left by { ConsumedFits(bin, w.left, feeBps, xToY); }
      [Fill(w.id, bin, maxIn + Fee(maxIn, feeBps), maxIn, Liquidity(bin, xToY))]
    else if PartialOut(bin, amount, xToY).None? then []
    else [Fill(w.id, bin, w.left, amount, PartialOut(bin, amount, xToY).value)]
  }

  /** The fills of the first `n` iterations. */
  function Fills(arrays: seq<BinArray>, start: Walk, feeBps: u64, xToY: bool, n: nat): seq<Fill>
    requires FeeDenominator(feeBps) > 0
  {
    if n == 0 then [] else
    var before := Fills(arrays, start, feeBps, xToY, n - 1);
    match WalkAt(arrays, start, feeBps, xToY, n - 1)
    case None => before
    case Some(w) =>
      if Stopped(arrays, w) then before
      else before + FillOf(FindBin(arrays, w.id).value, w, feeBps, xToY)
  }

  function TotalGross(fills: seq<Fill>): nat {
    if fills == [] then 0 else TotalGross(fills[..|fills| - 1]) + fills[|fills| - 1].gross
  }

  function TotalOut(fills: seq<Fill>): nat {
    if fills == [] then 0 else TotalOut(fills[..|fills| - 1]) + fills[|fills| - 1].out
  }

  /** What the bin holds of the token the walk pays out. */
  function Held(bin: Bin, xToY: bool): u64 {
    if xToY then bin.amountY else bin.amountX
  }

  /** `fee` is the pool's rate on `amount`, rounded up: basis points of what is left after the fee. */
  predicate IsFeeOn(amount: nat, fee: int, feeBps: u64) {
    amount * (feeBps * 100_000) <= fee * (1_000_000_000 - feeBps * 100_000)
      < amount * (feeBps * 100_000) + (1_000_000_000 - feeBps * 100_000)
  }

  /** The fill pays out all the bin holds for exactly its price, rounded up, and the fee on that. */
  predicate Empties(f: Fill, feeBps: u64, xToY: bool) {
    && f.out == Held(f.bin, xToY) && IsFeeOn(f.net, f.gross - f.net, feeBps)
    && if xToY then f.bin.amountY * Q64 <= f.net * f.bin.price < f.bin.amountY * Q64 + f.bin.price
       else f.bin.amountX * f.bin.price <= f.net * Q64 < f.bin.amountX * f.bin.price + Q64
  }

  /** The fill takes all the input left, too little to empty the bin: the fee on it comes off first, and the rest is
      paid at the bin's price, rounded down. */
  predicate PartlyFills(f: Fill, feeBps: u64, xToY: bool) {
    && f.out <= Held(f.bin, xToY)
    && (IsFeeOn(f.gross, f.gross - f.net, feeBps) || (f.net == 0 && f.gross * (1_000_000_000 - feeBps * 100_000) <= f.gross * (feeBps * 100_000)))
    && if xToY then f.net * f.bin.price < f.bin.amountY * Q64 && f.out * Q64 <= f.net * f.bin.price < (f.out + 1) * Q64
       else f.net * Q64 < f.bin.amountX * f.bin.price && f.out * f.bin.price <= f.net * Q64 < (f.out + 1) * f.bin.price
  }

  /** One fill is exact: it is of the bin its id belongs to, which it empties or partly fills. */
  ghost predicate ExactFill(arrays: seq<BinArray>, f: Fill, feeBps: u64, xToY: bool) {
    HoldsBin(arrays, f.id, f.bin) && (Empties(f, feeBps, xToY) || PartlyFills(f, feeBps, xToY))
  }

  /** One fill is fair to the pool: it pays no more than the bin holds, no better than the bin's price on the net
      input, and the fee is at least the pool's rate on the net input. */
  ghost predicate FairFill(arrays: seq<BinArray>, f: Fill, feeBps: u64, xToY: bool) {
    && HoldsBin(arrays, f.id, f.bin)
    && f.out <= Held(f.bin, xToY)
    && (if xToY then f.out * Q64 <= f.net * f.bin.price else f.out * f.bin.price <= f.net * Q64)
    && f.net <= f.gross
    && f.net * (feeBps * 100_000) <= (f.gross - f.net) * (1_000_000_000 - feeBps * 100_000)
  }

  /** Strictly past `id` in the direction of the walk. */
  predicate Passed(earlier: int, later: int, xToY: bool) {
    if xToY then earlier > later else earlier < later
  }

  ghost predicate Sound(arrays: seq<BinArray>, start: Walk, w: Walk, fills: seq<Fill>, feeBps: u64, xToY: bool) {
    && w.left + TotalGross(fills) == start.left
    && w.out == TotalOut(fills)
    && TotalOut(fills) <= |fills| * U64_MAX
    && (forall i :: 0 <= i < |fills| ==> FairFill(arrays, fills[i], feeBps, xToY) && ExactFill(arrays, fills[i], feeBps, xToY))
    && (forall i, j :: 0 <= i < j < |fills| ==> Passed(fills[i].id, fills[j].id, xToY))
    && (w.left > 0 ==> forall i :: 0 <= i < |fills| ==> Passed(fills[i].id, w.id, xToY))
  }

  lemma FeeCovers(amount: nat, feeBps: u64)
    requires FeeDenominator(feeBps) > 0
    ensures amount * FeeRate(feeBps) <= Fee(amount, feeBps) * FeeDenominator(feeBps) < amount * FeeRate(feeBps) + FeeDenominator(feeBps)
  {
    CeilDivBounds(amount * FeeRate(feeBps), FeeDenominator(feeBps));
  }

  lemma NetFee(left: u64, feeBps: u64)
    requires FeeDenominator(feeBps) > 0
    ensures var net := AfterFee(left, feeBps);
            net <= left && net * FeeRate(feeBps) <= (left - net) * FeeDenominator(feeBps)
  {
    var net, fee := AfterFee(left, feeBps), Fee(left, feeBps);
    if fee < left {
      CeilDivBounds(left * FeeRate(feeBps), FeeDenominator(feeBps));
      MulMono(net, left, FeeRate(feeBps));
    } else {
      assert net == 0;
      MulMono(0, left, FeeDenominator(feeBps));
    }
  }

  lemma FillIsFair(arrays: seq<BinArray>, bin: Bin, w: Walk, feeBps: u64, xToY: bool)
    requires FindBin(arrays, w.id) == Some(bin) && bin.price > 0 && FeeDenominator(feeBps) > 0
    ensures forall f :: f in FillOf(bin, w, feeBps, xToY) ==> FairFill(arrays, f, feeBps, xToY)
  {
    hide FindBin, MaxIn, PartialOut, AfterFee, Fee, HoldsBin;
    FindBinExactly(arrays, w.id, bin);
    if FillOf(bin, w, feeBps, xToY) == [] { return; }
    var maxIn := MaxIn(bin, xToY).value;
    var amount := AfterFee(w.left, feeBps);
    MaxInBounds(bin, xToY);
    if amount >= maxIn {
      FeeCovers(maxIn, feeBps);
    } else {
      PartialOutBounds(bin, amount, xToY);
      NetFee(w.left, feeBps);
    }
  }

  lemma ShortOfEmptying(net: nat, maxIn: nat, bin: Bin, xToY: bool)
    requires net < maxIn && bin.price > 0
    requires if xToY then maxIn * bin.price < bin.amountY * Q64 + bin.price else maxIn * Q64 < bin.amountX * bin.price + Q64
    ensures if xToY then net * bin.price < bin.amountY * Q64 else net * Q64 < bin.amountX * bin.price
  {
    var unit := if xToY then bin.price else Q64;
    MulMono(net + 1, maxIn, unit);
    MulDistribute(unit, net, 1);
  }

  lemma FeeIsExact(left: u64, feeBps: u64)
    requires FeeDenominator(feeBps) > 0
    ensures var net := AfterFee(left, feeBps);
            || IsFeeOn(left, left - net, feeBps)
            || (net == 0 && left * (1_000_000_000 - feeBps * 100_000) <= left * (feeBps * 100_000))
  {
    hide Fee;
    FeeCovers(left, feeBps);
    if Fee(left, feeBps) > left {
      MulMono(left + 1, Fee(left, feeBps), FeeDenominator(feeBps));
      MulDistribute(FeeDenominator(feeBps), left, 1);
    }
  }

  /** Every fill is exactly what its bin is worth. */
  lemma FillIsExact(arrays: seq<BinArray>, bin: Bin, w: Walk, feeBps: u64, xToY: bool)
    requires FindBin(arrays, w.id) == Some(bin) && bin.price > 0 && FeeDenominator(feeBps) > 0
    ensures forall f :: f in FillOf(bin, w, feeBps, xToY) ==> ExactFill(arrays, f, feeBps, xToY)
  {
    hide FindBin, MaxIn, PartialOut, AfterFee, Fee, HoldsBin;
    FindBinExactly(arrays, w.id, bin);
    if FillOf(bin, w, feeBps, xToY) == [] { return; }
    var f := FillOf(bin, w, feeBps, xToY)[0];
    var maxIn := MaxIn(bin, xToY).value;
    MaxInBounds(bin, xToY);
    if AfterFee(w.left, feeBps) >= maxIn {
      FeeCovers(maxIn, feeBps);
      assert Empties(f, feeBps, xToY);
    } else {
      PartialOutBounds(bin, AfterFee(w.left, feeBps), xToY);
      FeeIsExact(w.left, feeBps);
      ShortOfEmptying(f.net, maxIn, bin, xToY);
      assert PartlyFills(f, feeBps, xToY);
    }
  }

  lemma FairFillBound(arrays: seq<BinArray>, f: Fill, feeBps: u64, xToY: bool)
    requires FairFill(arrays, f, feeBps, xToY)
    ensures f.out <= U64_MAX
  {
  }

  /** A fill accounts for what its visit does to the walk. */
  lemma FillMovesWalk(bin: Bin, w: Walk, feeBps: u64, xToY: bool)
    requires bin.price > 0 && FeeDenominator(feeBps) > 0 && VisitBin(bin, w, feeBps, xToY).Some?
    ensures var v := VisitBin(bin, w, feeBps, xToY).value;
            var made := FillOf(bin, w, feeBps, xToY);
            if made == [] then v == w.(id := NextId(w.id, xToY))
            else
              && |made| == 1 && made[0].id == w.id
              && v.left + made[0].gross == w.left && v.out == AddOut(w.out, made[0].out)
              && (v.left > 0 ==> v.id == NextId(w.id, xToY))
  {
    hide MaxIn, PartialOut, AfterFee, Fee, AddOut;
    if Liquidity(bin, xToY) > 0 && MaxIn(bin, xToY).Some? && AfterFee(w.left, feeBps) >= MaxIn(bin, xToY).value {
      ConsumedFits(bin, w.left, feeBps, xToY);
    }
  }

  lemma TotalsAppend(fills: seq<Fill>, f: Fill)
    ensures TotalGross(fills + [f]) == TotalGross(fills) + f.gross && TotalOut(fills + [f]) == TotalOut(fills) + f.out
  {
    assert (fills + [f])[..|fills + [f]| - 1] == fills;
  }

  lemma VisitKeepsSound(arrays: seq<BinArray>, start: Walk, w: Walk, fills: seq<Fill>, feeBps: u64, xToY: bool, n: nat)
    requires FeeDenominator(feeBps) > 0 && !Stopped(arrays, w)
    requires Sound(arrays, start, w, fills, feeBps, xToY) && |fills| <= n < MAX_BINS
    requires VisitBin(FindBin(arrays, w.id).value, w, feeBps, xToY).Some?
    ensures var bin := FindBin(arrays, w.id).value;
            var after := fills + FillOf(bin, w, feeBps, xToY);
            Sound(arrays, start, VisitBin(bin, w, feeBps, xToY).value, after, feeBps, xToY) && |after| <= n + 1
  {
    hide FindBin, VisitBin, FillOf, FairFill, ExactFill, AddOut, TotalGross, TotalOut;
    var bin := FindBin(arrays, w.id).value;
    var made := FillOf(bin, w, feeBps, xToY);
    FillMovesWalk(bin, w, feeBps, xToY);
    if made == [] {
      assert fills + made == fills;
    } else {
      FillIsFair(arrays, bin, w, feeBps, xToY);
      FillIsExact(arrays, bin, w, feeBps, xToY);
      assert made == [made[0]] && made[0] in made;
      FairFillBound(arrays, made[0], feeBps, xToY);
      TotalsAppend(fills, made[0]);
      AddOutExact(w.out, made[0].out);
    }
  }

  lemma StartIsSound(arrays: seq<BinArray>, start: Walk, feeBps: u64, xToY: bool)
    requires start.out == 0
    ensures Sound(arrays, start, start, [], feeBps, xToY)
  {
  }

  /** At every iteration: the input is exactly what the bins took plus what is left, the output is exactly what they
      paid (no addition wraps), no bin is visited twice, and every fill is fair to the pool. */
  lemma {:induction false} WalkIsSound(arrays: seq<BinArray>, start: Walk, feeBps: u64, xToY: bool, n: nat)
    requires FeeDenominator(feeBps) > 0 && n <= MAX_BINS && start.out == 0
    requires WalkAt(arrays, start, feeBps, xToY, n).Some?
    ensures Sound(arrays, start, WalkAt(arrays, start, feeBps, xToY, n).value, Fills(arrays, start, feeBps, xToY, n), feeBps, xToY)
    ensures |Fills(arrays, start, feeBps, xToY, n)| <= n
  {
    hide VisitBin, FindBin, FillOf, Sound;
    if n == 0 {
      StartIsSound(arrays, start, feeBps, xToY);
    } else {
      WalkIsSound(arrays, start, feeBps, xToY, n - 1);
      var w := WalkAt(arrays, start, feeBps, xToY, n - 1).value;
      if !Stopped(arrays, w) {
        VisitKeepsSound(arrays, start, w, Fills(arrays, start, feeBps, xToY, n - 1), feeBps, xToY, n - 1);
      }
    }
  }

  // ---- No bin is skipped, and where the walk stops ----

  /** The ids from the first on that the walk has left behind when it stands at `at`. */
  predicate LeftBehind(id: int, first: int, at: int, xToY: bool) {
    if xToY then at < id <= first else first <= id < at
  }

  function Distance(first: int, at: int, xToY: bool): int {
    if xToY then first - at else at - first
  }

  ghost predicate PaidOut(fills: seq<Fill>, id: int, out: nat) {
    exists i :: 0 <= i < |fills| && fills[i].id == id && fills[i].out == out
  }

  /** The bin of this id is priced, and holds nothing or was paid out whole. */
  ghost predicate Exhausted(arrays: seq<BinArray>, fills: seq<Fill>, id: int, xToY: bool) {
    exists bin ::
      && HoldsBin(arrays, id, bin) && bin.price > 0
      && (Held(bin, xToY) == 0 || PaidOut(fills, id, Held(bin, xToY)))
  }

  /** Nothing is skipped: every bin from the active one up to the current one has been used up, and with input left
      after `n` visits the walk has come `n` bins far or stands where there is no priced bin. */
  ghost predicate Thorough(arrays: seq<BinArray>, start: Walk, w: Walk, fills: seq<Fill>, xToY: bool, n: nat) {
    && 0 <= Distance(start.id, w.id, xToY) <= n
    && (forall id :: LeftBehind(id, start.id, w.id, xToY) ==> Exhausted(arrays, fills, id, xToY))
    && (w.left > 0 && Distance(start.id, w.id, xToY) < n ==> forall bin :: HoldsBin(arrays, w.id, bin) ==> bin.price == 0)
  }

  lemma ExhaustedStays(arrays: seq<BinArray>, fills: seq<Fill>, made: seq<Fill>, id: int, xToY: bool)
    requires Exhausted(arrays, fills, id, xToY)
    ensures Exhausted(arrays, fills + made, id, xToY)
  {
    hide HoldsBin;
    var bin :| HoldsBin(arrays, id, bin) && bin.price > 0 && (Held(bin, xToY) == 0 || PaidOut(fills, id, Held(bin, xToY)));
    if Held(bin, xToY) > 0 {
      var i :| 0 <= i < |fills| && fills[i].id == id && fills[i].out == Held(bin, xToY);
      assert (fills + made)[i] == fills[i];
    }
  }

  /** A visit that moves on leaves an exhausted bin. */
  lemma VisitExhausts(arrays: seq<BinArray>, w: Walk, fills: seq<Fill>, feeBps: u64, xToY: bool)
    requires FeeDenominator(feeBps) > 0 && !Stopped(arrays, w) && VisitBin(FindBin(arrays, w.id).value, w, feeBps, xToY).Some?
    ensures var bin := FindBin(arrays, w.id).value;
            var v := VisitBin(bin, w, feeBps, xToY).value;
            || (v.left == 0 && v.id == w.id)
            || (v.id == (if xToY then w.id - 1 else w.id + 1)
                && Exhausted(arrays, fills + FillOf(bin, w, feeBps, xToY), w.id, xToY))
  {
    hide FindBin, MaxIn, PartialOut, AfterFee, Fee, HoldsBin;
    var bin := FindBin(arrays, w.id).value;
    FindBinExactly(arrays, w.id, bin);
    var made := FillOf(bin, w, feeBps, xToY);
    if Held(bin, xToY) > 0 && made != [] {
      assert (fills + made)[|fills|] == made[0];
    }
  }

  lemma {:induction false} WalkIsThorough(arrays: seq<BinArray>, start: Walk, feeBps: u64, xToY: bool, n: nat)
    requires FeeDenominator(feeBps) > 0
    ensures match WalkAt(arrays, start, feeBps, xToY, n)
            case None => true
            case Some(w) => Thorough(arrays, start, w, Fills(arrays, start, feeBps, xToY, n), xToY, n)
  {
    hide VisitBin, FindBin, FillOf, Exhausted, HoldsBin;
    if n == 0 {
    } else if WalkAt(arrays, start, feeBps, xToY, n).Some? {
      WalkIsThorough(arrays, start, feeBps, xToY, n - 1);
      var w := WalkAt(arrays, start, feeBps, xToY, n - 1).value;
      var fills := Fills(arrays, start, feeBps, xToY, n - 1);
      if !Stopped(arrays, w) {
        var bin := FindBin(arrays, w.id).value;
        FindBinExactly(arrays, w.id, bin);
        VisitExhausts(arrays, w, fills, feeBps, xToY);
        var v := WalkAt(arrays, start, feeBps, xToY, n).value;
        forall id | LeftBehind(id, start.id, v.id, xToY)
          ensures Exhausted(arrays, Fills(arrays, start, feeBps, xToY, n), id, xToY)
        {
          if id != w.id || v.id == w.id { ExhaustedStays(arrays, fills, FillOf(bin, w, feeBps, xToY), id, xToY); }
        }
      } else {
        forall bin | HoldsBin(arrays, w.id, bin) && w.left > 0 ensures bin.price == 0 {
          FindBinExactly(arrays, w.id, bin);
        }
      }
    }
  }

  // ---- When there is no quote ----

  /** What it takes to empty the bin cannot be computed in 128 bits. */
  predicate Overflows(bin: Bin, xToY: bool) {
    if xToY then bin.amountY * Q64 + bin.price - 1 > U128_MAX else bin.amountX * bin.price > U128_MAX
  }

  lemma VisitRefusedExactlyWhen(bin: Bin, w: Walk, feeBps: u64, xToY: bool)
    requires bin.price > 0 && FeeDenominator(feeBps) > 0
    ensures VisitBin(bin, w, feeBps, xToY).None? <==> Held(bin, xToY) > 0 && Overflows(bin, xToY)
  {
    hide AfterFee, Fee;
    if Held(bin, xToY) > 0 && MaxIn(bin, xToY).Some? {
      MaxInBounds(bin, xToY);
      var amount, m := AfterFee(w.left, feeBps), MaxIn(bin, xToY).value;
      if amount < m { ShortOfEmptying(amount, m, bin, xToY); }
    }
  }

  /** Iteration `n` comes with input left to a bin whose visit overflows. */
  ghost predicate OverflowsAt(arrays: seq<BinArray>, start: Walk, feeBps: u64, xToY: bool, n: nat) {
    match WalkAt(arrays, start, feeBps, xToY, n)
    case None => false
    case Some(w) =>
      w.left > 0 && exists bin :: HoldsBin(arrays, w.id, bin) && bin.price > 0 && Held(bin, xToY) > 0 && Overflows(bin, xToY)
  }

  lemma NextLostExactlyWhen(arrays: seq<BinArray>, start: Walk, feeBps: u64, xToY: bool, n: nat)
    requires FeeDenominator(feeBps) > 0 && WalkAt(arrays, start, feeBps, xToY, n).Some?
    ensures WalkAt(arrays, start, feeBps, xToY, n + 1).None? <==> OverflowsAt(arrays, start, feeBps, xToY, n)
  {
    hide FindBin, VisitBin, HoldsBin, Overflows;
    var w := WalkAt(arrays, start, feeBps, xToY, n).value;
    forall bin ensures FindBin(arrays, w.id) == Some(bin) <==> HoldsBin(arrays, w.id, bin) {
      FindBinExactly(arrays, w.id, bin);
    }
    if !Stopped(arrays, w) {
      VisitRefusedExactlyWhen(FindBin(arrays, w.id).value, w, feeBps, xToY);
    }
  }

  lemma {:induction false} WalkLostExactlyWhen(arrays: seq<BinArray>, start: Walk, feeBps: u64, xToY: bool, n: nat)
    requires FeeDenominator(feeBps) > 0
    ensures WalkAt(arrays, start, feeBps, xToY, n).None? <==>
              exists m :: 0 <= m < n && OverflowsAt(arrays, start, feeBps, xToY, m)
  {
    hide OverflowsAt, Stopped, VisitBin;
    if n == 0 {
    } else {
      WalkLostExactlyWhen(arrays, start, feeBps, xToY, n - 1);
      if WalkAt(arrays, start, feeBps, xToY, n - 1).Some? {
        NextLostExactlyWhen(arrays, start, feeBps, xToY, n - 1);
      }
    }
  }

  /** There is no quote exactly when the fee is 100% or more, some bin come to overflows, or the total exceeds 64 bits. */
  lemma QuoteRefusedExactlyWhen(arrays: seq<BinArray>, feeBps: u64, activeId: int, input: u64, xToY: bool)
    ensures var start := Walk(input, 0, activeId);
            BinOutput(arrays, feeBps, activeId, input, xToY).None? <==>
              input > 0 &&
                (|| feeBps >= 10_000
                 || (exists n :: 0 <= n < 200 && OverflowsAt(arrays, start, feeBps, xToY, n))
                 || TotalOut(Fills(arrays, start, feeBps, xToY, 200)) > U64_MAX)
  {
    hide OverflowsAt, WalkAt, TotalOut;
    if FeeDenominator(feeBps) > 0 {
      var start := Walk(input, 0, activeId);
      WalkLostExactlyWhen(arrays, start, feeBps, xToY, MAX_BINS);
      if WalkAt(arrays, start, feeBps, xToY, MAX_BINS).Some? {
        WalkIsSound(arrays, start, feeBps, xToY, MAX_BINS);
      }
    }
  }

  // ---- A larger input never yields less ----

  /** `fa` and `fb` are `a*r/d` and `b*r/d` rounded up. */
  lemma CeilingLeavesMonotone(a: nat, b: nat, r: nat, d: nat, fa: nat, fb: nat)
    requires a <= b && 0 < d
    requires a * r <= fa * d && fb * d < b * r + d
    ensures SaturatingSub(a, fa) <= SaturatingSub(b, fb)
  {
    if r >= d {
      MulMono(d, r, a);
      CancelLe(a, fa, d);
    } else {
      MulMono(r, d, b - a);
      MulDistribute(d, b - a, 1);
      assert (b - a) * r == b * r - a * r;
      assert (fb - fa) * d == fb * d - fa * d;
      CancelLt(fb - fa, b - a + 1, d);
    }
  }

  /** The part of an input left after its fee grows with the input, whatever the fee. Above 5000 basis points the fee
      eats every input whole. */
  lemma AfterFeeMonotone(a: u64, b: u64, feeBps: u64)
    requires a <= b && FeeDenominator(feeBps) > 0
    ensures AfterFee(a, feeBps) <= AfterFee(b, feeBps)
  {
    hide Fee, FeeRate, FeeDenominator;
    FeeCovers(a, feeBps);
    FeeCovers(b, feeBps);
    CeilingLeavesMonotone(a, b, FeeRate(feeBps), FeeDenominator(feeBps), Fee(a, feeBps), Fee(b, feeBps));
  }

  lemma PartialOutMonotone(bin: Bin, a: u64, b: u64, xToY: bool)
    requires bin.price > 0 && a <= b && PartialOut(bin, a, xToY).Some? && PartialOut(bin, b, xToY).Some?
    ensures PartialOut(bin, a, xToY).value <= PartialOut(bin, b, xToY).value
  {
    if xToY {
      MulMono(a, b, bin.price);
      QuotientMono(a * bin.price, b * bin.price, Q64);
    } else {
      QuotientMono(a * Q64, b * Q64, bin.price);
    }
  }

  /** A walk compared with a larger one after equally many iterations: at the same bin with the same output and no
      more left, or exhausted and not ahead in output. */
  ghost predicate NotAheadOf(small: Walk, large: Walk) {
    || (small.id == large.id && small.out == large.out && small.left <= large.left)
    || (small.left == 0 && small.out <= large.out)
  }

  lemma VisitCompare(bin: Bin, a: Walk, b: Walk, feeBps: u64, xToY: bool)
    requires bin.price > 0 && FeeDenominator(feeBps) > 0
    requires a.id == b.id && a.out == b.out && a.left <= b.left && a.out <= MAX_BINS * U64_MAX
    requires VisitBin(bin, a, feeBps, xToY).Some? && VisitBin(bin, b, feeBps, xToY).Some?
    ensures NotAheadOf(VisitBin(bin, a, feeBps, xToY).value, VisitBin(bin, b, feeBps, xToY).value)
  {
    hide MaxIn, PartialOut, AfterFee, Fee, AddOut;
    if Liquidity(bin, xToY) > 0 {
      AfterFeeMonotone(a.left, b.left, feeBps);
      var u, v, m := AfterFee(a.left, feeBps), AfterFee(b.left, feeBps), MaxIn(bin, xToY);
      assert m.Some?;
      var limit: u128 := m.value;
      if u < limit {
        PartialOutBounds(bin, u, xToY);
        var paid := PartialOut(bin, u, xToY).value;
        AddOutExact(a.out, paid);
        if v < limit {
          PartialOutBounds(bin, v, xToY);
          PartialOutMonotone(bin, u, v, xToY);
          AddOutExact(b.out, PartialOut(bin, v, xToY).value);
        } else {
          AddOutExact(b.out, Liquidity(bin, xToY));
        }
      }
    }
  }

  lemma FillCount(bin: Bin, w: Walk, feeBps: u64, xToY: bool)
    requires bin.price > 0 && FeeDenominator(feeBps) > 0
    ensures |FillOf(bin, w, feeBps, xToY)| <= 1
  {
  }

  /** The output of a walk never decreases, and stays small. */
  lemma OutputGrows(arrays: seq<BinArray>, start: Walk, feeBps: u64, xToY: bool, n: nat)
    requires FeeDenominator(feeBps) > 0 && n < MAX_BINS && start.out == 0
    requires WalkAt(arrays, start, feeBps, xToY, n + 1).Some?
    ensures WalkAt(arrays, start, feeBps, xToY, n).Some?
    ensures WalkAt(arrays, start, feeBps, xToY, n).value.out <= WalkAt(arrays, start, feeBps, xToY, n + 1).value.out
    ensures WalkAt(arrays, start, feeBps, xToY, n).value.out <= MAX_BINS * U64_MAX
  {
    hide VisitBin, FindBin, FairFill, ExactFill, FillOf;
    WalkIsSound(arrays, start, feeBps, xToY, n);
    WalkIsSound(arrays, start, feeBps, xToY, n + 1);
    var w := WalkAt(arrays, start, feeBps, xToY, n).value;
    var before, after := Fills(arrays, start, feeBps, xToY, n), Fills(arrays, start, feeBps, xToY, n + 1);
    if !Stopped(arrays, w) {
      var made := FillOf(FindBin(arrays, w.id).value, w, feeBps, xToY);
      FillCount(FindBin(arrays, w.id).value, w, feeBps, xToY);
      if made == [] {
        assert after == before;
      } else {
        assert after[..|after| - 1] == before;
      }
    }
  }

  lemma {:induction false} WalksCompare(arrays: seq<BinArray>, small: Walk, large: Walk, feeBps: u64, xToY: bool, n: nat)
    requires FeeDenominator(feeBps) > 0 && n <= MAX_BINS
    requires small.id == large.id && small.out == large.out == 0 && small.left <= large.left
    requires WalkAt(arrays, small, feeBps, xToY, n).Some? && WalkAt(arrays, large, feeBps, xToY, n).Some?
    ensures NotAheadOf(WalkAt(arrays, small, feeBps, xToY, n).value, WalkAt(arrays, large, feeBps, xToY, n).value)
  {
    hide VisitBin, FindBin;
    if n == 0 {
    } else {
      WalksCompare(arrays, small, large, feeBps, xToY, n - 1);
      OutputGrows(arrays, small, feeBps, xToY, n - 1);
      OutputGrows(arrays, large, feeBps, xToY, n - 1);
      var a := WalkAt(arrays, small, feeBps, xToY, n - 1).value;
      var b := WalkAt(arrays, large, feeBps, xToY, n - 1).value;
      if !Stopped(arrays, a) && !Stopped(arrays, b) {
        VisitCompare(FindBin(arrays, a.id).value, a, b, feeBps, xToY);
      }
    }
  }

  /** Whenever both quotes answer, a larger input yields no less, in either direction and at every fee. */
  lemma LargerInputYieldsNoLess(arrays: seq<BinArray>, feeBps: u64, activeId: int, x: u64, y: u64, xToY: bool)
    requires x <= y
    requires BinOutput(arrays, feeBps, activeId, x, xToY).Some? && BinOutput(arrays, feeBps, activeId, y, xToY).Some?
    ensures BinOutput(arrays, feeBps, activeId, x, xToY).value <= BinOutput(arrays, feeBps, activeId, y, xToY).value
  {
    if x > 0 {
      WalksCompare(arrays, Walk(x, 0, activeId), Walk(y, 0, activeId), feeBps, xToY, MAX_BINS);
    }
  }

  /** The output never exceeds what the distinct bins visited hold. */
  function TotalHeld(fills: seq<Fill>, xToY: bool): nat {
    if fills == [] then 0 else TotalHeld(fills[..|fills| - 1], xToY) + Held(fills[|fills| - 1].bin, xToY)
  }

  lemma {:induction false} FairFillsPayNoMoreThanHeld(arrays: seq<BinArray>, fills: seq<Fill>, feeBps: u64, xToY: bool)
    requires forall i :: 0 <= i < |fills| ==> FairFill(arrays, fills[i], feeBps, xToY)
    ensures TotalOut(fills) <= TotalHeld(fills, xToY)
  {
    if fills == [] {
    } else {
      FairFillsPayNoMoreThanHeld(arrays, fills[..|fills| - 1], feeBps, xToY);
    }
  }

  /** A quote is backed by the bins: it pays exactly what the bins it visited pay, at most what they hold, each visited
      once and none passed over, and takes at most the input. */
  lemma QuoteIsBacked(arrays: seq<BinArray>, feeBps: u64, activeId: int, input: u64, xToY: bool)
    requires input > 0 && BinOutput(arrays, feeBps, activeId, input, xToY).Some?
    ensures FeeDenominator(feeBps) > 0
    ensures var fills := Fills(arrays, Walk(input, 0, activeId), feeBps, xToY, MAX_BINS);
            && BinOutput(arrays, feeBps, activeId, input, xToY).value == TotalOut(fills) <= TotalHeld(fills, xToY)
            && TotalGross(fills) <= input
            && (forall i :: 0 <= i < |fills| ==> ExactFill(arrays, fills[i], feeBps, xToY))
            && (exists end: Walk :: end.left == input - TotalGross(fills)
                  && Thorough(arrays, Walk(input, 0, activeId), end, fills, xToY, 200))
            && (forall i, j :: 0 <= i < j < |fills| ==> Passed(fills[i].id, fills[j].id, xToY))
  {
    var start := Walk(input, 0, activeId);
    WalkIsSound(arrays, start, feeBps, xToY, MAX_BINS);
    WalkIsThorough(arrays, start, feeBps, xToY, MAX_BINS);
    FairFillsPayNoMoreThanHeld(arrays, Fills(arrays, start, feeBps, xToY, MAX_BINS), feeBps, xToY);
  }
}
