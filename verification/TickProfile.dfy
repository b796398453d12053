/** The liquidity the tick walk carries is the net liquidity of the ticks on one side of it. */
module TickProfile {
  import opened Machine
  import opened SwapStep
  import opened TickWalk
  import opened TickWalkLaws

  ghost predicate InRange(ticks: seq<Tick>) {
    forall t :: t in ticks ==> -MAX_TICK <= t.index <= MAX_TICK
  }

  ghost predicate DistinctTicks(ticks: seq<Tick>) {
    forall i, j :: 0 <= i < j < |ticks| && ticks[i].liquidityGross > 0 && ticks[j].liquidityGross > 0
      ==> ticks[i].index != ticks[j].index
  }

  /** Net liquidity of the initialized ticks at or below `k`. */
  function AtOrBelow(ticks: seq<Tick>, k: int): int {
    if ticks == [] then 0 else
    (if ticks[0].liquidityGross > 0 && ticks[0].index <= k then ticks[0].liquidityNet else 0) + AtOrBelow(ticks[1..], k)
  }

  /** A pool as the chain keeps it: distinct ticks, every prefix sum of `liquidityNet` a 127-bit number, and the
      liquidity that of the range above the current tick. `base` is owed to ticks outside the cached arrays. Nothing
      is said of prices. */
  ghost predicate WellFormed(ticks: seq<Tick>, base: int, currentTick: int, liquidity: u128) {
    && InRange(ticks) && DistinctTicks(ticks)
    && (forall k :: 0 <= base + AtOrBelow(ticks, k) < TWO_127)
    && liquidity == base + AtOrBelow(ticks, currentTick)
  }

  // ---- The path holds exactly the initialized ticks ahead, in order ----

  lemma {:induction false} AheadHolds(ticks: seq<Tick>, currentTick: int, aToB: bool, t: Tick)
    ensures t in Ahead(ticks, currentTick, aToB) <==>
              t in ticks && t.liquidityGross > 0 && (if aToB then t.index <= currentTick else t.index > currentTick)
  {
    if ticks == [] {
    } else {
      AheadHolds(ticks[1..], currentTick, aToB, t);
      assert t in ticks <==> t == ticks[0] || t in ticks[1..];
    }
  }

  ghost predicate InOrder(s: seq<Tick>, aToB: bool) {
    forall i, j :: 0 <= i < j < |s| ==> Before(s[i], s[j], aToB)
  }

  lemma {:induction false} InsertHolds(t: Tick, s: seq<Tick>, aToB: bool, x: Tick)
    ensures x in Insert(t, s, aToB) <==> x == t || x in s
  {
    if s == [] || !Before(s[0], t, aToB) {
    } else {
      InsertHolds(t, s[1..], aToB, x);
      assert s == [s[0]] + s[1..];
    }
  }

  lemma {:induction false} InsertKeepsOrder(t: Tick, s: seq<Tick>, aToB: bool)
    requires InOrder(s, aToB) && forall x :: x in s ==> x.index != t.index
    ensures InOrder(Insert(t, s, aToB), aToB)
  {
    if s == [] {
    } else if Before(s[0], t, aToB) {
      InsertKeepsOrder(t, s[1..], aToB);
      var rest := Insert(t, s[1..], aToB);
      forall j | 0 <= j < |rest| ensures Before(s[0], rest[j], aToB) {
        InsertHolds(t, s[1..], aToB, rest[j]);
      }
    } else {
      assert Before(t, s[0], aToB);
    }
  }

  lemma {:induction false} SortedHolds(s: seq<Tick>, aToB: bool, x: Tick)
    ensures x in Sorted(s, aToB) <==> x in s
  {
    if s == [] {
    } else {
      SortedHolds(s[1..], aToB, x);
      InsertHolds(s[0], Sorted(s[1..], aToB), aToB, x);
      assert x in s <==> x == s[0] || x in s[1..];
    }
  }

  ghost predicate AllDistinct(s: seq<Tick>) {
    forall i, j :: 0 <= i < j < |s| ==> s[i].index != s[j].index
  }

  lemma {:induction false} SortedIsInOrder(s: seq<Tick>, aToB: bool)
    requires AllDistinct(s)
    ensures InOrder(Sorted(s, aToB), aToB)
  {
    if s == [] {
    } else {
      SortedIsInOrder(s[1..], aToB);
      forall x | x in Sorted(s[1..], aToB) ensures x.index != s[0].index {
        SortedHolds(s[1..], aToB, x);
        var j :| 0 <= j < |s[1..]| && s[1..][j] == x;
        assert s[j + 1] == x;
      }
      InsertKeepsOrder(s[0], Sorted(s[1..], aToB), aToB);
    }
  }

  lemma {:induction false} AheadDistinct(ticks: seq<Tick>, currentTick: int, aToB: bool)
    requires DistinctTicks(ticks)
    ensures AllDistinct(Ahead(ticks, currentTick, aToB))
  {
    if ticks == [] {
    } else {
      AheadDistinct(ticks[1..], currentTick, aToB);
      var rest := Ahead(ticks[1..], currentTick, aToB);
      if ticks[0].liquidityGross > 0 {
        forall j | 0 <= j < |rest| ensures rest[j].index != ticks[0].index {
          AheadHolds(ticks[1..], currentTick, aToB, rest[j]);
          var k :| 0 <= k < |ticks[1..]| && ticks[1..][k] == rest[j];
          assert ticks[k + 1] == rest[j];
        }
      }
    }
  }

  /** The path is strictly ordered and holds exactly the initialized ticks on the side the price moves to. */
  lemma PathIsComplete(arrays: seq<TickArray>, currentTick: int, aToB: bool)
    requires DistinctTicks(Flatten(arrays))
    ensures InOrder(Path(arrays, currentTick, aToB), aToB)
    ensures forall t :: t in Path(arrays, currentTick, aToB) <==>
              t in Flatten(arrays) && t.liquidityGross > 0 && (if aToB then t.index <= currentTick else t.index > currentTick)
  {
    var all := Flatten(arrays);
    var ahead := Ahead(all, currentTick, aToB);
    AheadDistinct(all, currentTick, aToB);
    SortedIsInOrder(ahead, aToB);
    forall t ensures t in Sorted(ahead, aToB) <==>
        t in all && t.liquidityGross > 0 && (if aToB then t.index <= currentTick else t.index > currentTick) {
      SortedHolds(ahead, aToB, t);
      AheadHolds(all, currentTick, aToB, t);
    }
  }

  // ---- The invariant ----

  /** The last tick index whose liquidity is carried into iteration `n`: the current tick, then one below the tick just
      crossed when selling A, and the tick just crossed itself when buying. */
  function Mark(path: seq<Tick>, currentTick: int, aToB: bool, n: nat): int
    requires n <= |path|
  {
    if n == 0 then currentTick else if aToB then path[n - 1].index - 1 else path[n - 1].index
  }

  /** The next tick of the path is the one initialized tick between the mark and the next mark. */
  lemma NextTickIsNext(arrays: seq<TickArray>, currentTick: int, aToB: bool, n: nat, t: Tick)
    requires DistinctTicks(Flatten(arrays)) && n < |Path(arrays, currentTick, aToB)|
    requires t in Flatten(arrays) && t.liquidityGross > 0
    ensures var path := Path(arrays, currentTick, aToB);
            var here, next := Mark(path, currentTick, aToB, n), Mark(path, currentTick, aToB, n + 1);
            t == path[n] <==> if aToB then next < t.index <= here else here < t.index <= next
  {
    PathIsComplete(arrays, currentTick, aToB);
    var path := Path(arrays, currentTick, aToB);
    var here, next := Mark(path, currentTick, aToB, n), Mark(path, currentTick, aToB, n + 1);
    assert path[n] in path;
    if n > 0 { assert path[n - 1] in path && Before(path[n - 1], path[n], aToB); }
    if if aToB then next < t.index <= here else here < t.index <= next {
      assert t in path;
      var k :| 0 <= k < |path| && path[k] == t;
      if k < n {
        assert false;
      }
      assert k > n ==> Before(path[n], path[k], aToB);
    }
  }

  lemma {:induction false} AtOrBelowSame(ticks: seq<Tick>, j: int, k: int)
    requires j <= k && forall t :: t in ticks && t.liquidityGross > 0 ==> !(j < t.index <= k)
    ensures AtOrBelow(ticks, j) == AtOrBelow(ticks, k)
  {
    if ticks == [] {
    } else {
      AtOrBelowSame(ticks[1..], j, k);
    }
  }

  /** With `x` the one initialized tick above `j` and at or below `k`, the sums differ by its net. */
  lemma {:induction false} AtOrBelowDropsOne(ticks: seq<Tick>, x: Tick, j: int, k: int)
    requires DistinctTicks(ticks) && x in ticks && x.liquidityGross > 0 && j < x.index <= k
    requires forall t :: t in ticks && t.liquidityGross > 0 && j < t.index <= k ==> t == x
    ensures AtOrBelow(ticks, k) == AtOrBelow(ticks, j) + x.liquidityNet
  {
    if ticks[0] == x {
      forall t | t in ticks[1..] && t.liquidityGross > 0 ensures t.index != x.index {
        var i :| 0 <= i < |ticks[1..]| && ticks[1..][i] == t;
        assert ticks[i + 1] == t;
      }
      AtOrBelowSame(ticks[1..], j, k);
    } else {
      assert x in ticks[1..];
      AtOrBelowDropsOne(ticks[1..], x, j, k);
    }
  }

  lemma MarkMovesOneTick(arrays: seq<TickArray>, currentTick: int, aToB: bool, n: nat)
    requires DistinctTicks(Flatten(arrays)) && n < |Path(arrays, currentTick, aToB)|
    ensures var all, path := Flatten(arrays), Path(arrays, currentTick, aToB);
            var here, next := AtOrBelow(all, Mark(path, currentTick, aToB, n)), AtOrBelow(all, Mark(path, currentTick, aToB, n + 1));
            next == if aToB then here - path[n].liquidityNet else here + path[n].liquidityNet
  {
    var all, path := Flatten(arrays), Path(arrays, currentTick, aToB);
    var here, next := Mark(path, currentTick, aToB, n), Mark(path, currentTick, aToB, n + 1);
    PathIsComplete(arrays, currentTick, aToB);
    assert path[n] in path;
    forall t | t in all && t.liquidityGross > 0
      ensures t == path[n] <==> if aToB then next < t.index <= here else here < t.index <= next
    {
      NextTickIsNext(arrays, currentTick, aToB, n, t);
    }
    if aToB {
      AtOrBelowDropsOne(all, path[n], next, here);
    } else {
      AtOrBelowDropsOne(all, path[n], here, next);
    }
  }

  /** What a crossing answers on any numbers whatever: the sum or difference, up to a multiple of 2^128, and nothing
      exactly if the liquidity, read as a signed number, takes it out of the signed range. */
  lemma CrossExactly(liquidity: u128, net: i128, aToB: bool, after: u128)
    ensures Cross(liquidity, net, aToB) == Some(after) <==>
              var signed := if liquidity < TWO_127 then liquidity as int else liquidity - TWO_128;
              var sum := if aToB then signed - net else signed + net;
              -TWO_127 <= sum < TWO_127 && (after == sum || after == sum + TWO_128)
  {
  }

  lemma CrossIsExact(liquidity: u128, net: i128, aToB: bool)
    requires 0 <= liquidity < TWO_127
    requires 0 <= (if aToB then liquidity - net else liquidity + net) < TWO_127
    ensures Cross(liquidity, net, aToB) == Some(if aToB then liquidity - net else liquidity + net)
  {
  }

  /** With input and liquidity left and the tick still ahead, the swap up to it cannot be computed. */
  ghost predicate SwapOverflows(sqrtAt: PriceTable, w: Walk, tick: Tick, aToB: bool) {
    && w.remaining > 0 && w.liquidity > 0 && !NotAhead(sqrtAt(tick.index), w.price, aToB)
    && ComputeSwapStep(w.price, sqrtAt(tick.index), w.liquidity, w.remaining, aToB).None?
  }

  lemma VisitTracks(sqrtAt: PriceTable, arrays: seq<TickArray>, base: int, currentTick: int, liquidity: u128, w: Walk,
                    aToB: bool, n: nat)
    requires WellFormed(Flatten(arrays), base, currentTick, liquidity) && n < |Path(arrays, currentTick, aToB)|
    requires w.remaining > 0
    requires w.liquidity == base + AtOrBelow(Flatten(arrays), Mark(Path(arrays, currentTick, aToB), currentTick, aToB, n))
    ensures var path := Path(arrays, currentTick, aToB);
            match VisitTick(sqrtAt, w, path[n], aToB)
            case Some(v) =>
              v.remaining > 0 ==> v.liquidity == base + AtOrBelow(Flatten(arrays), Mark(path, currentTick, aToB, n + 1))
            case None => SwapOverflows(sqrtAt, w, path[n], aToB)
  {
    hide ComputeSwapStep, Cross, AddOutput, Path, Flatten;
    var path := Path(arrays, currentTick, aToB);
    PathIsComplete(arrays, currentTick, aToB);
    assert path[n] in path;
    MarkMovesOneTick(arrays, currentTick, aToB, n);
    CrossIsExact(w.liquidity, path[n].liquidityNet, aToB);
    var target := sqrtAt(path[n].index);
    if !NotAhead(target, w.price, aToB) && ComputeSwapStep(w.price, target, w.liquidity, w.remaining, aToB).Some? {
      StepContained(w.price, target, w.liquidity, w.remaining, aToB);
    }
  }

  /** Iteration `m` comes to an overflowing swap. */
  ghost predicate GivesUpAt(sqrtAt: PriceTable, path: seq<Tick>, start: Walk, aToB: bool, m: nat)
    requires m < |path|
  {
    && WalkAt(sqrtAt, path, start, aToB, m).Some?
    && SwapOverflows(sqrtAt, WalkAt(sqrtAt, path, start, aToB, m).value, path[m], aToB)
  }

  lemma GivesUpUnfolds(sqrtAt: PriceTable, path: seq<Tick>, start: Walk, aToB: bool, m: nat)
    requires m < |path| && WalkAt(sqrtAt, path, start, aToB, m).Some?
    requires SwapOverflows(sqrtAt, WalkAt(sqrtAt, path, start, aToB, m).value, path[m], aToB)
    ensures GivesUpAt(sqrtAt, path, start, aToB, m)
  {
    hide SwapOverflows, WalkAt;
  }

  /** Ticks visited before iteration `n`. */
  function Visited(n: nat): nat {
    if n <= MAX_STEPS then n else MAX_STEPS
  }

  lemma StartIsTracked(arrays: seq<TickArray>, base: int, currentTick: int, liquidity: u128, aToB: bool)
    requires WellFormed(Flatten(arrays), base, currentTick, liquidity)
    ensures liquidity == base + AtOrBelow(Flatten(arrays), Mark(Path(arrays, currentTick, aToB), currentTick, aToB, 0))
  {
  }

  /** In a well-formed pool, at any price whatever, the liquidity carried with input left is before every iteration the
      net liquidity at or below the mark: no i128 or u128 cast wraps, no crossing ever fails, and a walk gives up only
      on an overflowing swap. */
  lemma {:induction false} LiquidityTracksProfile(sqrtAt: PriceTable, arrays: seq<TickArray>, base: int, currentTick: int,
                                                  start: Walk, aToB: bool, n: nat)
    requires WellFormed(Flatten(arrays), base, currentTick, start.liquidity) && n <= |Path(arrays, currentTick, aToB)|
    ensures var path := Path(arrays, currentTick, aToB);
            match WalkAt(sqrtAt, path, start, aToB, n)
            case Some(w) =>
              w.remaining > 0 ==>
                w.liquidity == base + AtOrBelow(Flatten(arrays), Mark(path, currentTick, aToB, Visited(n)))
            case None => exists m :: 0 <= m < n && m < 50 && GivesUpAt(sqrtAt, path, start, aToB, m)
  {
    hide VisitTick, Path, SwapOverflows, GivesUpAt, WellFormed, AtOrBelow, Flatten, Mark;
    if n == 0 {
      StartIsTracked(arrays, base, currentTick, start.liquidity, aToB);
    } else {
      LiquidityTracksProfile(sqrtAt, arrays, base, currentTick, start, aToB, n - 1);
      var path := Path(arrays, currentTick, aToB);
      var before := WalkAt(sqrtAt, path, start, aToB, n - 1);
      if before.Some? && before.value.remaining > 0 && n - 1 < MAX_STEPS {
        VisitTracks(sqrtAt, arrays, base, currentTick, start.liquidity, before.value, aToB, n - 1);
        if WalkAt(sqrtAt, path, start, aToB, n).None? {
          assert GivesUpAt(sqrtAt, path, start, aToB, n - 1) by { GivesUpUnfolds(sqrtAt, path, start, aToB, n - 1); }
        }
      }
    }
  }

  lemma OverflowGivesUp(sqrtAt: PriceTable, path: seq<Tick>, start: Walk, aToB: bool, m: nat, n: nat)
    requires m < n <= |path| && m < 50 && -MAX_TICK <= path[m].index <= MAX_TICK && GivesUpAt(sqrtAt, path, start, aToB, m)
    ensures WalkAt(sqrtAt, path, start, aToB, n).None?
  {
    hide ComputeSwapStep, Cross;
    assert WalkAt(sqrtAt, path, start, aToB, m + 1).None?;
    WalkLost(sqrtAt, path, start, aToB, m + 1, n);
  }

  lemma PathTickInRange(arrays: seq<TickArray>, base: int, currentTick: int, liquidity: u128, aToB: bool, m: nat)
    requires WellFormed(Flatten(arrays), base, currentTick, liquidity) && m < |Path(arrays, currentTick, aToB)|
    ensures -MAX_TICK <= Path(arrays, currentTick, aToB)[m].index <= MAX_TICK
  {
    PathIsComplete(arrays, currentTick, aToB);
    assert Path(arrays, currentTick, aToB)[m] in Path(arrays, currentTick, aToB);
  }

  /** A well-formed pool refuses a quote exactly if the fee exceeds 100%, a swap it comes to within the first 50 ticks
      overflows, or the total exceeds 64 bits. */
  lemma RefusedExactlyWhen(sqrtAt: PriceTable, feeBps: u64, base: int, currentTick: int, price: u128, liquidity: u128,
                           arrays: seq<TickArray>, input: u64, aToB: bool)
    requires WellFormed(Flatten(arrays), base, currentTick, liquidity)
    ensures var path := Path(arrays, currentTick, aToB);
            var amount := AfterFee(input, feeBps);
            MultiTickOutput(sqrtAt, feeBps, currentTick, price, liquidity, arrays, input, aToB).None? <==>
              || feeBps > 10_000
              || (amount.Some? && amount.value > 0
                  && var start := Walk(amount.value, 0, price, liquidity);
                  var end := WalkAt(sqrtAt, path, start, aToB, |path|);
                  || (exists m :: 0 <= m < |path| && m < 50 && GivesUpAt(sqrtAt, path, start, aToB, m))
                  || (end.Some? && LastRange(end.value, aToB) > U64_MAX))
  {
    hide AfterFee, WalkAt, LastRange, GivesUpAt, Path, Flatten, WellFormed;
    AfterFeeExactly(input, feeBps);
    var path := Path(arrays, currentTick, aToB);
    var amount := AfterFee(input, feeBps);
    if amount.Some? && amount.value > 0 {
      var start := Walk(amount.value, 0, price, liquidity);
      LiquidityTracksProfile(sqrtAt, arrays, base, currentTick, start, aToB, |path|);
      forall m | 0 <= m < |path| && m < 50 && GivesUpAt(sqrtAt, path, start, aToB, m)
        ensures WalkAt(sqrtAt, path, start, aToB, |path|).None?
      {
        PathTickInRange(arrays, base, currentTick, liquidity, aToB, m);
        OverflowGivesUp(sqrtAt, path, start, aToB, m, |path|);
      }
    }
  }

  // ---- Read in prices ----

  /** Ticks up to the current one are priced at or below the pool, later ones at or above it. A pool resting exactly on
      a tick may count it on either side, as it does after a sale and after a purchase that stopped there. */
  ghost predicate Priced(sqrtAt: PriceTable, ticks: seq<Tick>, currentTick: int, price: u128) {
    && Increasing(sqrtAt)
    && forall t :: t in ticks && t.liquidityGross > 0 ==>
         if t.index <= currentTick then sqrtAt(t.index) <= price else price <= sqrtAt(t.index)
  }

  /** The tick counts in the range the price is about to move through: under the price when selling A, from the price
      up when buying. */
  predicate Counts(sqrtAt: PriceTable, t: Tick, price: u128, aToB: bool) {
    if aToB then sqrtAt(t.index) < price else sqrtAt(t.index) <= price
  }

  /** Liquidity of that range: the sum of `liquidityNet` over the initialized ticks that count. */
  function Profile(sqrtAt: PriceTable, ticks: seq<Tick>, price: u128, aToB: bool): int {
    if ticks == [] then 0 else
    (if ticks[0].liquidityGross > 0 && Counts(sqrtAt, ticks[0], price, aToB) then ticks[0].liquidityNet else 0)
    + Profile(sqrtAt, ticks[1..], price, aToB)
  }

  lemma {:induction false} ProfileIsAtOrBelow(sqrtAt: PriceTable, ticks: seq<Tick>, price: u128, aToB: bool, k: int)
    requires forall t :: t in ticks && t.liquidityGross > 0 ==> (Counts(sqrtAt, t, price, aToB) <==> t.index <= k)
    ensures Profile(sqrtAt, ticks, price, aToB) == AtOrBelow(ticks, k)
  {
    if ticks == [] {
    } else {
      ProfileIsAtOrBelow(sqrtAt, ticks[1..], price, aToB, k);
    }
  }

  /** After the first tick, a walk with input left stands exactly on the tick it visited last. */
  lemma {:induction false} WalkStandsOnTick(sqrtAt: PriceTable, arrays: seq<TickArray>, currentTick: int, start: Walk, aToB: bool,
                                            n: nat)
    requires InRange(Flatten(arrays)) && DistinctTicks(Flatten(arrays))
    requires Priced(sqrtAt, Flatten(arrays), currentTick, start.price)
    requires 0 < n <= |Path(arrays, currentTick, aToB)|
    ensures var path := Path(arrays, currentTick, aToB);
            match WalkAt(sqrtAt, path, start, aToB, n)
            case None => true
            case Some(w) => w.remaining > 0 ==> w.price == sqrtAt(path[Visited(n) - 1].index)
  {
    hide ComputeSwapStep, Cross, AddOutput, Path, Flatten;
    var path := Path(arrays, currentTick, aToB);
    var before := WalkAt(sqrtAt, path, start, aToB, n - 1);
    if n > 1 { WalkStandsOnTick(sqrtAt, arrays, currentTick, start, aToB, n - 1); }
    if before.Some? && before.value.remaining > 0 && n - 1 < MAX_STEPS {
      PathIsComplete(arrays, currentTick, aToB);
      assert path[n - 1] in path;
      if n > 1 { assert path[n - 2] in path && Before(path[n - 2], path[n - 1], aToB); }
      var w, target := before.value, sqrtAt(path[n - 1].index);
      if !NotAhead(target, w.price, aToB) && ComputeSwapStep(w.price, target, w.liquidity, w.remaining, aToB).Some? {
        StepContained(w.price, target, w.liquidity, w.remaining, aToB);
      }
    }
  }

  /** A walk that starts exactly on the first tick of its path has yet to cross it: selling, the liquidity still holds
      the tick's net, buying it does not hold it yet. */
  function YetToCross(sqrtAt: PriceTable, path: seq<Tick>, price: u128, aToB: bool, n: nat): int {
    if n == 0 && path != [] && sqrtAt(path[0].index) == price
    then (if aToB then path[0].liquidityNet else -(path[0].liquidityNet as int)) else 0
  }

  lemma StartIsPriceProfile(sqrtAt: PriceTable, arrays: seq<TickArray>, currentTick: int, price: u128, aToB: bool)
    requires InRange(Flatten(arrays)) && DistinctTicks(Flatten(arrays))
    requires Priced(sqrtAt, Flatten(arrays), currentTick, price)
    ensures AtOrBelow(Flatten(arrays), currentTick)
         == Profile(sqrtAt, Flatten(arrays), price, aToB) + YetToCross(sqrtAt, Path(arrays, currentTick, aToB), price, aToB, 0)
  {
    hide Path, Flatten;
    var all, path := Flatten(arrays), Path(arrays, currentTick, aToB);
    PathIsComplete(arrays, currentTick, aToB);
    if path != [] { assert path[0] in path; }
    var crosses := path != [] && sqrtAt(path[0].index) == price;
    var mark := if crosses then Mark(path, currentTick, aToB, 1) else currentTick;
    forall t | t in all && t.liquidityGross > 0 ensures Counts(sqrtAt, t, price, aToB) <==> t.index <= mark {
      if t in path {
        var k :| 0 <= k < |path| && path[k] == t;
        assert k > 0 ==> Before(path[0], path[k], aToB);
      }
    }
    ProfileIsAtOrBelow(sqrtAt, all, price, aToB, mark);
    if crosses { MarkMovesOneTick(arrays, currentTick, aToB, 0); }
  }

  lemma MarkIsPriceProfile(sqrtAt: PriceTable, arrays: seq<TickArray>, currentTick: int, aToB: bool, n: nat)
    requires InRange(Flatten(arrays)) && DistinctTicks(Flatten(arrays)) && Increasing(sqrtAt)
    requires 0 < n <= |Path(arrays, currentTick, aToB)|
    ensures var path := Path(arrays, currentTick, aToB);
            AtOrBelow(Flatten(arrays), Mark(path, currentTick, aToB, n))
              == Profile(sqrtAt, Flatten(arrays), sqrtAt(path[n - 1].index), aToB)
  {
    hide Path, Flatten;
    var path := Path(arrays, currentTick, aToB);
    PathIsComplete(arrays, currentTick, aToB);
    assert path[n - 1] in path;
    ProfileIsAtOrBelow(sqrtAt, Flatten(arrays), sqrtAt(path[n - 1].index), aToB, Mark(path, currentTick, aToB, n));
  }

  /** Under a strictly increasing table, the liquidity with input left is the profile at the current price, up to the
      first tick when the pool rests exactly on it and it is yet to be crossed. */
  lemma LiquidityIsPriceProfile(sqrtAt: PriceTable, arrays: seq<TickArray>, base: int, currentTick: int, start: Walk, aToB: bool,
                                n: nat)
    requires WellFormed(Flatten(arrays), base, currentTick, start.liquidity)
    requires Priced(sqrtAt, Flatten(arrays), currentTick, start.price)
    requires n <= |Path(arrays, currentTick, aToB)|
    ensures var path := Path(arrays, currentTick, aToB);
            match WalkAt(sqrtAt, path, start, aToB, n)
            case None => true
            case Some(w) =>
              w.remaining > 0 ==>
                w.liquidity == base + Profile(sqrtAt, Flatten(arrays), w.price, aToB) + YetToCross(sqrtAt, path, w.price, aToB, n)
  {
    hide Path, Flatten, VisitTick, Profile, AtOrBelow;
    LiquidityTracksProfile(sqrtAt, arrays, base, currentTick, start, aToB, n);
    if n == 0 {
      StartIsPriceProfile(sqrtAt, arrays, currentTick, start.price, aToB);
    } else {
      WalkStandsOnTick(sqrtAt, arrays, currentTick, start, aToB, n);
      MarkIsPriceProfile(sqrtAt, arrays, currentTick, aToB, Visited(n));
    }
  }

  // ---- Pools that meet the assumptions ----

  function EvenTable(tick: int): u128 {
    if -MAX_TICK <= tick <= MAX_TICK then MIN_SQRT_PRICE + MAX_TICK + tick else 0
  }

  /** One position between the ticks -10 and 10. */
  function OnePosition(size: i128): seq<Tick>
    requires 0 < size
  {
    [Tick(-10, size, size), Tick(10, -size, size)]
  }

  /** The position is well formed at every current tick, with a price anywhere from that tick up to the next, both
      ends included: also on the lower tick with its liquidity removed, where a sale that used the range up stops. */
  lemma OnePositionIsWellFormed(size: i128, currentTick: int, price: u128)
    requires 0 < size && -MAX_TICK <= currentTick < MAX_TICK
    requires EvenTable(currentTick) <= price <= EvenTable(currentTick + 1)
    ensures WellFormed(OnePosition(size), 0, currentTick, if -10 <= currentTick < 10 then size else 0)
    ensures Priced(EvenTable, OnePosition(size), currentTick, price)
  {
    var ticks := OnePosition(size);
    assert ticks[1..] == [ticks[1]] && ticks[1..][1..] == [];
    forall k
      ensures AtOrBelow(ticks, k) == (if -10 <= k then size else 0) + (if 10 <= k then -size else 0)
    {
      assert AtOrBelow(ticks, k) == (if -10 <= k then size else 0) + AtOrBelow([ticks[1]], k);
    }
  }
}
