/** The client side: flattening per-hop swap instructions into one account list with byte indices for the on-chain
    program, and what that program then does with it. */
module BundleBuilder {
  import opened Address
  import opened Machine
  import opened InstructionData
  import opened ArbGuard

  /** One hop as the swap builders deliver it: everything but the amounts. */
  datatype Leg = Leg(layout: Layout, program: Key, accounts: seq<Meta>, outputAccount: Key, estimatedOutput: u64)

  datatype Bundle = Bundle(accounts: seq<Meta>, params: Params)

  /** Number of accounts each builder lists, at most. */
  function MaxAccounts(l: Layout): nat {
    match l
    case RaydiumAmm => 8
    case RaydiumCp => 13
    case RaydiumClmm => 17
    case Orca(_, _) => 15
    case Dlmm => 19
    case DammV2 => 12
    case PumpSell => 21
    case PumpBuy => 23
    case Sanctum(_, _, _, _) => 24
    case Manifest(_) => 8
    case Phoenix(_) => 9
  }

  // ---- What is built ----

  /** The first hop spends the route's input, a later one what the hop before is estimated to pay. */
  function AmountIn(legs: seq<Leg>, input: u64, i: nat): u64
    requires i < |legs|
  {
    if i == 0 then input else legs[i - 1].estimatedOutput
  }

  function MinOut(legs: seq<Leg>, minAmountOut: u64, i: nat): u64 {
    if i == |legs| - 1 then minAmountOut else 0
  }

  function SwapData(legs: seq<Leg>, input: u64, minAmountOut: u64, i: nat): seq<byte>
    requires i < |legs|
  {
    Data(legs[i].layout, AmountIn(legs, input, i), MinOut(legs, minAmountOut, i))
  }

  /** The account list after the first `n` hops: the signer, then each hop's program and accounts. */
  function Flat(signer: Key, legs: seq<Leg>, n: nat): (f: seq<Meta>)
    requires n <= |legs|
    ensures |f| > 0 && f[0] == Meta(signer, true, true)
  {
    if n == 0 then [Meta(signer, true, true)]
    else Flat(signer, legs, n - 1) + [Meta(legs[n - 1].program, false, false)] + legs[n - 1].accounts
  }

  /** First position of an address, as an index. */
  function Position(accounts: seq<Meta>, key: Key): (p: Option<nat>)
    ensures p.Some? ==>
              && p.value < |accounts| && accounts[p.value].key == key
              && forall i :: 0 <= i < p.value ==> accounts[i].key != key
    ensures p.None? ==> forall i :: 0 <= i < |accounts| ==> accounts[i].key != key
  {
    if accounts == [] then None
    else if accounts[0].key == key then Some(0)
    else
      var rest := Position(accounts[1..], key);
      assert forall i :: 1 <= i < |accounts| ==> accounts[i] == accounts[1..][i - 1];
      if rest.None? then None else Some(rest.value + 1)
  }

  function OutputPosition(signer: Key, legs: seq<Leg>, i: nat): Option<nat>
    requires i < |legs|
  {
    Position(Flat(signer, legs, i + 1), legs[i].outputAccount)
  }

  /** `n as u8`. */
  function AsByte(n: nat): byte {
    n % 256
  }

  function HopAt(signer: Key, legs: seq<Leg>, input: u64, minAmountOut: u64, i: nat): HopParams
    requires i < |legs| && OutputPosition(signer, legs, i).Some?
  {
    var base := |Flat(signer, legs, i)|;
    HopParams(AsByte(base), AsByte(base + 1), AsByte(|legs[i].accounts|), AsByte(OutputPosition(signer, legs, i).value),
              AmountOffset(legs[i].layout), SwapData(legs, input, minAmountOut, i))
  }

  /** Read where the leg's exchange reads them: the first swap is of the route's input and every later one of what the
      hop before is estimated to pay, and only the last asks for a minimum, so that only it can be refused for slippage. */
  ghost predicate AsksInTurn(legs: seq<Leg>, input: u64, minAmountOut: u64, i: nat, data: seq<byte>)
    requires i < |legs|
  {
    && (i == 0 && i + 1 == |legs| ==> Asks(legs[i].layout, data, input, minAmountOut))
    && (i == 0 && i + 1 < |legs| ==> Asks(legs[i].layout, data, input, 0))
    && (i > 0 && i + 1 == |legs| ==> Asks(legs[i].layout, data, legs[i - 1].estimatedOutput, minAmountOut))
    && (i > 0 && i + 1 < |legs| ==> Asks(legs[i].layout, data, legs[i - 1].estimatedOutput, 0))
  }

  lemma SwapDataAsks(legs: seq<Leg>, input: u64, minAmountOut: u64, i: nat)
    requires i < |legs|
    ensures AsksInTurn(legs, input, minAmountOut, i, SwapData(legs, input, minAmountOut, i))
  {
    hide Data, Asks;
    DataAsks(legs[i].layout, AmountIn(legs, input, i), MinOut(legs, minAmountOut, i));
  }

  /** The swap instructions of the route, in order. */
  method BuildSwaps(legs: seq<Leg>, input: u64, minAmountOut: u64) returns (swaps: seq<Instruction>)
    requires legs != []
    ensures |swaps| == |legs|
    ensures forall j :: 0 <= j < |legs| ==>
              swaps[j] == Instruction(legs[j].program, legs[j].accounts, SwapData(legs, input, minAmountOut, j))
    ensures forall j :: 0 <= j < |legs| ==> AsksInTurn(legs, input, minAmountOut, j, swaps[j].data)
  {
    hide Data, AsksInTurn;
    forall j | 0 <= j < |legs| ensures AsksInTurn(legs, input, minAmountOut, j, SwapData(legs, input, minAmountOut, j)) {
      SwapDataAsks(legs, input, minAmountOut, j);
    }
    swaps := [];
    for i := 0 to |legs|
      invariant |swaps| == i
      invariant forall j :: 0 <= j < i ==>
        swaps[j] == Instruction(legs[j].program, legs[j].accounts, SwapData(legs, input, minAmountOut, j))
    {
      var amountIn := if i == 0 then input else legs[i - 1].estimatedOutput;
      var minOut := if i == |legs| - 1 then minAmountOut else 0;
      swaps := swaps + [Instruction(legs[i].program, legs[i].accounts, Data(legs[i].layout, amountIn, minOut))];
    }
  }

  /** Every hop's output account is listed. */
  ghost predicate Located(signer: Key, legs: seq<Leg>) {
    forall i :: 0 <= i < |legs| ==> OutputPosition(signer, legs, i).Some?
  }

  /** The bundle the builder makes. */
  ghost function BundleOf(signer: Key, legs: seq<Leg>, input: u64, minAmountOut: u64): Bundle
    requires Located(signer, legs)
  {
    Bundle(Flat(signer, legs, |legs|),
           Params(minAmountOut, seq(|legs|, i requires 0 <= i < |legs| => HopAt(signer, legs, input, minAmountOut, i))))
  }

  /** The bundle carries the minimum, and its hops ask in turn. */
  ghost predicate BundleAsksInTurn(legs: seq<Leg>, input: u64, minAmountOut: u64, bundle: Bundle) {
    && bundle.params.minAmountOut == minAmountOut && |bundle.params.hops| == |legs|
    && forall j :: 0 <= j < |legs| ==> AsksInTurn(legs, input, minAmountOut, j, bundle.params.hops[j].data)
  }

  lemma BuiltBundleAsks(signer: Key, legs: seq<Leg>, input: u64, minAmountOut: u64)
    ensures Located(signer, legs) ==> BundleAsksInTurn(legs, input, minAmountOut, BundleOf(signer, legs, input, minAmountOut))
  {
    hide AsksInTurn, SwapData, Position, Flat;
    forall j | 0 <= j < |legs| ensures AsksInTurn(legs, input, minAmountOut, j, SwapData(legs, input, minAmountOut, j)) {
      SwapDataAsks(legs, input, minAmountOut, j);
    }
  }

  lemma NextHop(signer: Key, legs: seq<Leg>, input: u64, minAmountOut: u64, i: nat)
    requires i < |legs|
    ensures Flat(signer, legs, i + 1) == Flat(signer, legs, i) + [Meta(legs[i].program, false, false)] + legs[i].accounts
    ensures Position(Flat(signer, legs, i + 1), legs[i].outputAccount) == OutputPosition(signer, legs, i)
    ensures OutputPosition(signer, legs, i).Some? ==>
              HopAt(signer, legs, input, minAmountOut, i)
                == HopParams(AsByte(|Flat(signer, legs, i)|), AsByte(|Flat(signer, legs, i)| + 1), AsByte(|legs[i].accounts|),
                             AsByte(OutputPosition(signer, legs, i).value), AmountOffset(legs[i].layout),
                             SwapData(legs, input, minAmountOut, i))
  {
    hide Position, AsByte, AmountOffset, SwapData;
  }

  lemma BundleIs(signer: Key, legs: seq<Leg>, input: u64, minAmountOut: u64, hops: seq<HopParams>)
    requires Located(signer, legs) && |hops| == |legs|
    requires forall i :: 0 <= i < |legs| ==> hops[i] == HopAt(signer, legs, input, minAmountOut, i)
    ensures Bundle(Flat(signer, legs, |legs|), Params(minAmountOut, hops)) == BundleOf(signer, legs, input, minAmountOut)
  {
    hide HopAt, Flat, OutputPosition;
  }

  lemma FlatStarts(signer: Key, legs: seq<Leg>)
    ensures Flat(signer, legs, 0) == [Meta(signer, true, true)]
  {
  }

  /** The client's builder. Like the source it needs at least one hop; it fails when some hop's output account is in
      no account list so far. */
  method BuildExecuteArbV2(signer: Key, legs: seq<Leg>, input: u64, minAmountOut: u64) returns (r: Option<Bundle>)
    requires legs != []
    ensures r.Some? <==> Located(signer, legs)
    ensures r.Some? ==> r.value == BundleOf(signer, legs, input, minAmountOut)
    ensures r.Some? ==> BundleAsksInTurn(legs, input, minAmountOut, r.value)
  {
    hide Flat, HopAt, OutputPosition, Position, SwapData, AmountOffset, AsByte, AsksInTurn, BundleAsksInTurn, BundleOf;
    BuiltBundleAsks(signer, legs, input, minAmountOut);
    var swaps := BuildSwaps(legs, input, minAmountOut);
    var remaining := [Meta(signer, true, true)];
    FlatStarts(signer, legs);
    var hopParams: seq<HopParams> := [];
    for i := 0 to |swaps|
      invariant remaining == Flat(signer, legs, i) && |hopParams| == i
      invariant forall j :: 0 <= j < i ==> OutputPosition(signer, legs, j).Some?
      invariant forall j :: 0 <= j < i ==> hopParams[j] == HopAt(signer, legs, input, minAmountOut, j)
    {
      NextHop(signer, legs, input, minAmountOut, i);
      var programIndex := AsByte(|remaining|);
      remaining := remaining + [Meta(swaps[i].program, false, false)];
      var accountsStart := AsByte(|remaining|);
      remaining := remaining + swaps[i].accounts;
      var accountsLen := AsByte(|swaps[i].accounts|);
      var output := Position(remaining, legs[i].outputAccount);
      if output.None? { return None; }
      var hop := HopParams(programIndex, accountsStart, accountsLen, AsByte(output.value),
                           AmountOffset(legs[i].layout), swaps[i].data);
      hopParams := hopParams + [hop];
    }
    BundleIs(signer, legs, input, minAmountOut, hopParams);
    return Some(Bundle(remaining, Params(minAmountOut, hopParams)));
  }

  // ---- Which indices survive the cast to a byte ----

  predicate FitsAt(signer: Key, legs: seq<Leg>, i: nat)
    requires i < |legs|
  {
    && |Flat(signer, legs, i)| + 1 < 256 && |legs[i].accounts| < 256
    && OutputPosition(signer, legs, i).Some? && OutputPosition(signer, legs, i).value < 256
  }

  ghost predicate Fits(signer: Key, legs: seq<Leg>) {
    Located(signer, legs) && forall i :: 0 <= i < |legs| ==> FitsAt(signer, legs, i)
  }

  lemma ByteSurvives(n: nat)
    ensures AsByte(n) == n <==> n < 256
  {
  }

  /** The byte indices of a hop denote the positions meant exactly when they are below 256. */
  lemma IndicesSurviveExactlyWhen(signer: Key, legs: seq<Leg>, input: u64, minAmountOut: u64, i: nat)
    requires i < |legs| && OutputPosition(signer, legs, i).Some?
    ensures var hop := HopAt(signer, legs, input, minAmountOut, i);
            FitsAt(signer, legs, i) <==>
              && hop.programIndex == |Flat(signer, legs, i)|
              && hop.accountsStart == |Flat(signer, legs, i)| + 1
              && hop.accountsLen == |legs[i].accounts|
              && hop.outputIndex == OutputPosition(signer, legs, i).value
  {
    hide SwapData, AmountOffset, Flat, Position, AsByte;
    ByteSurvives(|Flat(signer, legs, i)|);
    ByteSurvives(|Flat(signer, legs, i)| + 1);
    ByteSurvives(|legs[i].accounts|);
    ByteSurvives(OutputPosition(signer, legs, i).value);
  }

  ghost predicate WellSized(legs: seq<Leg>) {
    forall i :: 0 <= i < |legs| ==> |legs[i].accounts| <= MaxAccounts(legs[i].layout)
  }

  lemma {:induction false} FlatSize(signer: Key, legs: seq<Leg>, n: nat)
    requires n <= |legs| && WellSized(legs)
    ensures |Flat(signer, legs, n)| <= 1 + 25 * n
  {
    if n == 0 {
    } else {
      FlatSize(signer, legs, n - 1);
    }
  }

  /** Up to ten hops, of any exchanges, every index fits a byte. */
  lemma TenHopsFit(signer: Key, legs: seq<Leg>, i: nat)
    requires WellSized(legs) && |legs| <= 10 && i < |legs| && OutputPosition(signer, legs, i).Some?
    ensures FitsAt(signer, legs, i)
  {
    FlatSize(signer, legs, i);
    FlatSize(signer, legs, i + 1);
  }

  lemma {:induction false} FlatSizeExactly(signer: Key, legs: seq<Leg>, n: nat)
    requires n <= |legs| && forall i :: 0 <= i < |legs| ==> |legs[i].accounts| == 24
    ensures |Flat(signer, legs, n)| == 1 + 25 * n
  {
    if n == 0 {
    } else {
      FlatSizeExactly(signer, legs, n - 1);
    }
  }

  lemma {:induction false} FlatIsPrefix(signer: Key, legs: seq<Leg>, m: nat, n: nat)
    requires m <= n <= |legs|
    ensures Flat(signer, legs, m) <= Flat(signer, legs, n)
  {
    if m == n {
    } else {
      FlatIsPrefix(signer, legs, m, n - 1);
    }
  }

  /** With an eleventh hop everything still fits exactly when that hop's output account is found below 256. */
  lemma ElevenHopsFitExactlyWhen(signer: Key, legs: seq<Leg>)
    requires WellSized(legs) && |legs| == 11 && Located(signer, legs)
    ensures Fits(signer, legs) <==> OutputPosition(signer, legs, 10).value < 256
  {
    hide Flat, Position;
    forall i | 0 <= i < 11 ensures FitsAt(signer, legs, i) <==> OutputPosition(signer, legs, i).value < 256
    {
      FlatSize(signer, legs, i);
    }
    forall i | 0 <= i < 10 ensures OutputPosition(signer, legs, i).value < 256 {
      FlatSize(signer, legs, i + 1);
    }
  }

  /** So it does when an earlier hop lists that account, as on a route that ends in the account its first hop spends. */
  lemma ElevenHopsFitWhenListedEarlier(signer: Key, legs: seq<Leg>, k: nat)
    requires WellSized(legs) && |legs| == 11 && Located(signer, legs)
    requires k < |Flat(signer, legs, 10)| && Flat(signer, legs, 10)[k].key == legs[10].outputAccount
    ensures Fits(signer, legs)
  {
    ElevenHopsFitExactlyWhen(signer, legs);
    FlatSize(signer, legs, 10);
    FlatIsPrefix(signer, legs, 10, 11);
    assert Flat(signer, legs, 11)[k] == Flat(signer, legs, 10)[k];
  }

  /** If none does, ten hops of the largest kind and an eleventh that lists it fifth put it at 256, which is sent as 0:
      the on-chain program would then read the signer's account for the last output. */
  lemma EleventhOutputIsMisread(signer: Key, legs: seq<Leg>, input: u64, minAmountOut: u64)
    requires |legs| == 11 && (forall i :: 0 <= i < |legs| ==> |legs[i].accounts| == 24)
    requires legs[10].accounts[4].key == legs[10].outputAccount
    requires forall k :: 0 <= k < 256 && k < |Flat(signer, legs, 11)| ==> Flat(signer, legs, 11)[k].key != legs[10].outputAccount
    ensures OutputPosition(signer, legs, 10) == Some(256)
    ensures HopAt(signer, legs, input, minAmountOut, 10).outputIndex == 0 && Flat(signer, legs, 11)[0].key == signer
  {
    hide Position, Data;
    FlatSizeExactly(signer, legs, 11);
    FlatSizeExactly(signer, legs, 10);
    assert Flat(signer, legs, 11)[256] == legs[10].accounts[4];
  }

  /** With twelve of the largest hops the last one's program index, 276, is sent as 20. */
  lemma TwelfthHopIsMisread(signer: Key, legs: seq<Leg>, input: u64, minAmountOut: u64)
    requires |legs| == 12 && (forall i :: 0 <= i < |legs| ==> |legs[i].accounts| == 24)
    requires OutputPosition(signer, legs, 11).Some?
    ensures |Flat(signer, legs, 11)| == 276 && HopAt(signer, legs, input, minAmountOut, 11).programIndex == 20
  {
    FlatSizeExactly(signer, legs, 11);
  }

  // ---- The on-chain run of a bundle is the client's swap sequence ----

  /** Compiling a transaction merges the privileges of every mention of an account. */
  function Promote(m: Meta, all: seq<Meta>): Meta {
    Meta(m.key, m.writable || (exists n :: n in all && n.key == m.key && n.writable),
         m.signer || (exists n :: n in all && n.key == m.key && n.signer))
  }

  function PromoteAll(metas: seq<Meta>, all: seq<Meta>): (r: seq<Meta>)
    ensures |r| == |metas|
  {
    seq(|metas|, i requires 0 <= i < |metas| => Promote(metas[i], all))
  }

  /** The call a leg stands for: its own program and accounts, and its data, with the amount overwritten by what the
      hop before paid unless it is the first. */
  function LegCall(legs: seq<Leg>, all: seq<Meta>, input: u64, minAmountOut: u64, i: nat, received: u64): Instruction
    requires i < |legs|
  {
    var data := SwapData(legs, input, minAmountOut, i);
    Instruction(legs[i].program, PromoteAll(legs[i].accounts, all),
                if i == 0 then data else Rewrite(data, AmountOffset(legs[i].layout), received))
  }

  /** The same call built afresh for the amount the hop before really paid. */
  function RebuiltCall(legs: seq<Leg>, all: seq<Meta>, input: u64, minAmountOut: u64, i: nat, received: u64): Instruction
    requires i < |legs|
  {
    Instruction(legs[i].program, PromoteAll(legs[i].accounts, all),
                Data(legs[i].layout, if i == 0 then input else received, MinOut(legs, minAmountOut, i)))
  }

  /** The first `n` swaps, each measured on its own output account. */
  function AfterSwaps<W>(chain: Chain<W>, w: W, legs: seq<Leg>, call: (nat, u64) -> Instruction, n: nat): Result<Progress<W>>
    requires n <= |legs|
  {
    if n == 0 then Ok(Progress(w, 0)) else
    var p :- AfterSwaps(chain, w, legs, call, n - 1);
    MeasuredCall(chain, p.world, call(n - 1, p.received), legs[n - 1].outputAccount)
  }

  /** The whole sequence with the profit floor on the last output account. */
  function SwapSequence<W>(chain: Chain<W>, w: W, legs: seq<Leg>, call: (nat, u64) -> Instruction, minAmountOut: u64): Result<W>
    requires legs != []
  {
    var profit := legs[|legs| - 1].outputAccount;
    var startBalance :- chain.TokenBalance(w, profit);
    var p :- AfterSwaps(chain, w, legs, call, |legs|);
    ProfitFloor(chain, p.world, profit, startBalance, minAmountOut)
  }

  function LegCalls(legs: seq<Leg>, all: seq<Meta>, input: u64, minAmountOut: u64): (nat, u64) -> Instruction {
    (i: nat, received: u64) =>
      if i < |legs| then LegCall(legs, all, input, minAmountOut, i, received) else Instruction(0, [], [])
  }

  function RebuiltCalls(legs: seq<Leg>, all: seq<Meta>, input: u64, minAmountOut: u64): (nat, u64) -> Instruction {
    (i: nat, received: u64) =>
      if i < |legs| then RebuiltCall(legs, all, input, minAmountOut, i, received) else Instruction(0, [], [])
  }

  lemma HopIsInFlat(signer: Key, legs: seq<Leg>, i: nat)
    requires i < |legs|
    ensures var flat, base := Flat(signer, legs, |legs|), |Flat(signer, legs, i)|;
            && base + 1 + |legs[i].accounts| <= |flat|
            && flat[base].key == legs[i].program
            && flat[base + 1..base + 1 + |legs[i].accounts|] == legs[i].accounts
            && Flat(signer, legs, i + 1) <= flat
  {
    FlatIsPrefix(signer, legs, i + 1, |legs|);
    var flat, base, next := Flat(signer, legs, |legs|), |Flat(signer, legs, i)|, Flat(signer, legs, i + 1);
    assert next[base + 1..] == legs[i].accounts;
    assert flat[..|next|] == next;
    assert flat[base] == next[base];
    assert flat[base + 1..|next|] == flat[..|next|][base + 1..];
  }

  lemma PromotedSlice(flat: seq<Meta>, all: seq<Meta>, start: nat, len: nat)
    requires start + len <= |flat|
    ensures PromoteAll(flat, all)[start..start + len] == PromoteAll(flat[start..start + len], all)
    ensures forall i :: 0 <= i < |flat| ==> PromoteAll(flat, all)[i].key == flat[i].key
  {
  }

  /** The on-chain program slices back, for each hop, exactly that hop's program, accounts and output account. */
  lemma HopIsSlicedBack(signer: Key, legs: seq<Leg>, input: u64, minAmountOut: u64, others: seq<Meta>, i: nat, received: u64)
    requires i < |legs| && FitsAt(signer, legs, i)
    ensures OutputPosition(signer, legs, i).Some?
    ensures var hop := HopAt(signer, legs, input, minAmountOut, i);
            var all := Flat(signer, legs, |legs|) + others;
            var remaining := PromoteAll(Flat(signer, legs, |legs|), all);
            && InBounds(remaining, hop)
            && HopCall(remaining, hop, i == 0, received) == LegCall(legs, all, input, minAmountOut, i, received)
            && remaining[hop.outputIndex].key == legs[i].outputAccount
  {
    hide Data, Rewrite, PromoteAll, Flat, Position, AsByte;
    IndicesSurviveExactlyWhen(signer, legs, input, minAmountOut, i);
    var flat := Flat(signer, legs, |legs|);
    var all := flat + others;
    var remaining := PromoteAll(flat, all);
    var base, len := |Flat(signer, legs, i)|, |legs[i].accounts|;
    HopIsInFlat(signer, legs, i);
    PromotedSlice(flat, all, base + 1, len);
  }

  lemma {:induction false} HopsAreSwaps<W>(chain: Chain<W>, w: W, signer: Key, legs: seq<Leg>, input: u64, minAmountOut: u64,
                                           others: seq<Meta>, n: nat)
    requires n <= |legs| && Fits(signer, legs)
    ensures var bundle := BundleOf(signer, legs, input, minAmountOut);
            var all := bundle.accounts + others;
            AfterHops(chain, w, PromoteAll(bundle.accounts, all), bundle.params.hops, n)
              == AfterSwaps(chain, w, legs, LegCalls(legs, all, input, minAmountOut), n)
  {
    hide HopCall, LegCall, HopAt, FitsAt, MeasuredCall, Flat, Position, PromoteAll;
    if n == 0 {
    } else {
      HopsAreSwaps(chain, w, signer, legs, input, minAmountOut, others, n - 1);
      var bundle := BundleOf(signer, legs, input, minAmountOut);
      var all := bundle.accounts + others;
      var before := AfterHops(chain, w, PromoteAll(bundle.accounts, all), bundle.params.hops, n - 1);
      if before.Ok? {
        HopIsSlicedBack(signer, legs, input, minAmountOut, others, n - 1, before.value.received);
      }
    }
  }

  /** Refinement: executing the bundle runs the client's swap sequence, whatever the called programs do and whatever
      other accounts the transaction mentions. */
  lemma ExecutionRefinesSwaps<W>(chain: Chain<W>, w: W, signer: Key, legs: seq<Leg>, input: u64, minAmountOut: u64, others: seq<Meta>)
    requires legs != [] && Fits(signer, legs)
    ensures var bundle := BundleOf(signer, legs, input, minAmountOut);
            var all := bundle.accounts + others;
            Execute(chain, w, PromoteAll(bundle.accounts, all), bundle.params)
              == SwapSequence(chain, w, legs, LegCalls(legs, all, input, minAmountOut), minAmountOut)
  {
    hide HopCall, LegCall, HopAt, FitsAt, ProfitFloor, Position, Flat, AfterHops, AfterSwaps;
    HopsAreSwaps(chain, w, signer, legs, input, minAmountOut, others, |legs|);
    HopIsSlicedBack(signer, legs, input, minAmountOut, others, |legs| - 1, 0);
  }

  // ---- With the amount at its offset, rewriting is rebuilding ----

  lemma {:induction false} SwapsAreRebuilt<W>(chain: Chain<W>, w: W, legs: seq<Leg>, all: seq<Meta>, input: u64,
                                              minAmountOut: u64, n: nat)
    requires n <= |legs| && forall i :: 1 <= i < |legs| ==> AmountIsAtOffset(legs[i].layout)
    ensures AfterSwaps(chain, w, legs, LegCalls(legs, all, input, minAmountOut), n)
         == AfterSwaps(chain, w, legs, RebuiltCalls(legs, all, input, minAmountOut), n)
  {
    hide Data, Rewrite, MeasuredCall;
    if n == 0 {
    } else {
      SwapsAreRebuilt(chain, w, legs, all, input, minAmountOut, n - 1);
      var before := AfterSwaps(chain, w, legs, LegCalls(legs, all, input, minAmountOut), n - 1);
      if before.Ok? && n > 1 {
        RewriteGivesRebuilt(legs[n - 1].layout, AmountIn(legs, input, n - 1), before.value.received, MinOut(legs, minAmountOut, n - 1));
      }
    }
  }

  /** On chain, a hop whose amount is at its offset is called for exactly what the hop before really paid, the first for
      the route's input, and still only the last asks for a minimum. */
  lemma ExecutedCallAsks(legs: seq<Leg>, all: seq<Meta>, input: u64, minAmountOut: u64, i: nat, received: u64)
    requires i < |legs| && (i > 0 ==> AmountIsAtOffset(legs[i].layout))
    ensures LegCall(legs, all, input, minAmountOut, i, received) == RebuiltCall(legs, all, input, minAmountOut, i, received)
    ensures Asks(legs[i].layout, LegCall(legs, all, input, minAmountOut, i, received).data,
                 if i == 0 then input else received, if i + 1 == |legs| then minAmountOut else 0)
  {
    hide Data, Rewrite, Asks;
    DataAsks(legs[i].layout, if i == 0 then input else received, MinOut(legs, minAmountOut, i));
    if i > 0 {
      RewriteGivesRebuilt(legs[i].layout, AmountIn(legs, input, i), received, MinOut(legs, minAmountOut, i));
    }
  }

  /** End to end: a route whose indices fit, as those of up to ten hops always do, and whose later hops keep the amount
      at its offset executes on chain as the sequence of swaps the client would have built had it known every output in
      advance. */
  lemma ExecutionRefinesRebuiltSwaps<W>(chain: Chain<W>, w: W, signer: Key, legs: seq<Leg>, input: u64, minAmountOut: u64,
                                        others: seq<Meta>)
    requires legs != [] && Located(signer, legs) && (Fits(signer, legs) || (|legs| <= 10 && WellSized(legs)))
    requires forall i :: 1 <= i < |legs| ==> AmountIsAtOffset(legs[i].layout)
    ensures var bundle := BundleOf(signer, legs, input, minAmountOut);
            var all := bundle.accounts + others;
            Execute(chain, w, PromoteAll(bundle.accounts, all), bundle.params)
              == SwapSequence(chain, w, legs, RebuiltCalls(legs, all, input, minAmountOut), minAmountOut)
  {
    hide Execute, HopAt, ProfitFloor, LegCall, RebuiltCall;
    if !Fits(signer, legs) {
      forall i | 0 <= i < |legs| ensures FitsAt(signer, legs, i) { TenHopsFit(signer, legs, i); }
    }
    ExecutionRefinesSwaps(chain, w, signer, legs, input, minAmountOut, others);
    SwapsAreRebuilt(chain, w, legs, BundleOf(signer, legs, input, minAmountOut).accounts + others, input, minAmountOut, |legs|);
  }
}
