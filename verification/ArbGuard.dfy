/** The on-chain program: `execute_arb_v2`, which interprets client-built hops by cross-program calls, and the
    `start_check` / `profit_check` pair. Nothing is assumed of the programs called. */
module ArbGuard {
  import opened Address
  import opened Machine
  import opened InstructionData

  datatype Meta = Meta(key: Key, writable: bool, signer: bool)

  datatype Instruction = Instruction(program: Key, accounts: seq<Meta>, data: seq<byte>)

  datatype HopParams = HopParams(programIndex: byte, accountsStart: byte, accountsLen: byte, outputIndex: byte,
                                 amountOffset: byte, data: seq<byte>)

  datatype Params = Params(minAmountOut: u64, hops: seq<HopParams>)

  datatype Error = SignerRequired | InvalidHopParams | InvalidTokenAccount | CallFailed | SwapOutputZero
                 | OverflowError | NoProfitDetected | GuardAlreadyActive | GuardNotActive
                 | TokenAccountOwnerMismatch | TokenAccountMismatch
                 | AuthorityMismatch

  datatype Result<+T> = Ok(value: T) | Err(error: Error) {
    predicate IsFailure() {
      Err?
    }

    function PropagateFailure<U>(): Result<U>
      requires Err?
    {
      Err(error)
    }

    function Extract(): T
      requires Ok?
    {
      value
    }
  }

  /** The chain around the program. `W` is the whole on-chain state; `balance` reads a token account and answers
      `None` when the account's data is too short; `invoke` runs any program whatever and may fail. */
  datatype Chain<!W> = Chain(balance: (W, Key) -> Option<u64>, invoke: (W, Instruction) -> Option<W>) {
    function TokenBalance(w: W, account: Key): Result<u64> {
      match balance(w, account)
      case None => Err(InvalidTokenAccount)
      case Some(b) => Ok(b)
    }
  }

  /** State between two hops: the world, and what the last hop was measured to pay. */
  datatype Progress<W> = Progress(world: W, received: u64)

  // ---- One hop ----

  predicate InBounds(remaining: seq<Meta>, hop: HopParams) {
    && hop.programIndex < |remaining|
    && hop.accountsStart + hop.accountsLen <= |remaining|
    && hop.outputIndex < |remaining|
  }

  /** The call made for a hop; every hop but the first gets the previous hop's output written into its data. */
  function HopCall(remaining: seq<Meta>, hop: HopParams, first: bool, received: u64): Instruction
    requires InBounds(remaining, hop)
  {
    Instruction(remaining[hop.programIndex].key,
                remaining[hop.accountsStart..hop.accountsStart + hop.accountsLen],
                if first then hop.data else Rewrite(hop.data, hop.amountOffset, received))
  }

  /** A call bracketed by two readings of the output account, which must have grown. */
  function MeasuredCall<W>(chain: Chain<W>, w: W, call: Instruction, output: Key): Result<Progress<W>> {
    var pre :- chain.TokenBalance(w, output);
    var after := chain.invoke(w, call);
    if after.None? then Err(CallFailed) else
    var post :- chain.TokenBalance(after.value, output);
    if post <= pre then Err(SwapOutputZero) else Ok(Progress(after.value, post - pre))
  }

  function RunHop<W>(chain: Chain<W>, p: Progress<W>, remaining: seq<Meta>, hop: HopParams, first: bool): Result<Progress<W>> {
    if !InBounds(remaining, hop) then Err(InvalidHopParams) else
    MeasuredCall(chain, p.world, HopCall(remaining, hop, first, p.received), remaining[hop.outputIndex].key)
  }

  /** The state after the first `n` hops. */
  function AfterHops<W>(chain: Chain<W>, w: W, remaining: seq<Meta>, hops: seq<HopParams>, n: nat): Result<Progress<W>>
    requires n <= |hops|
  {
    if n == 0 then Ok(Progress(w, 0)) else
    var p :- AfterHops(chain, w, remaining, hops, n - 1);
    RunHop(chain, p, remaining, hops[n - 1], n == 1)
  }

  /** The final check against the balance read before the first hop. */
  function ProfitFloor<W>(chain: Chain<W>, w: W, account: Key, startBalance: u64, minAmountOut: u64): Result<W> {
    var endBalance :- chain.TokenBalance(w, account);
    if startBalance + minAmountOut > U64_MAX then Err(OverflowError)
    else if endBalance < startBalance + minAmountOut then Err(NoProfitDetected)
    else Ok(w)
  }

  function Execute<W>(chain: Chain<W>, w: W, remaining: seq<Meta>, params: Params): Result<W> {
    if remaining == [] || !remaining[0].signer then Err(SignerRequired) else
    var n := |params.hops|;
    if n == 0 || params.hops[n - 1].outputIndex >= |remaining| then Err(InvalidHopParams) else
    var profit := remaining[params.hops[n - 1].outputIndex].key;
    var startBalance :- chain.TokenBalance(w, profit);
    var p :- AfterHops(chain, w, remaining, params.hops, n);
    ProfitFloor(chain, p.world, profit, startBalance, params.minAmountOut)
  }

  lemma {:induction false} FailedHopFails<W>(chain: Chain<W>, w: W, remaining: seq<Meta>, hops: seq<HopParams>, n: nat, m: nat)
    requires n <= m <= |hops| && AfterHops(chain, w, remaining, hops, n).Err?
    ensures AfterHops(chain, w, remaining, hops, m) == AfterHops(chain, w, remaining, hops, n)
  {
    if n == m {
    } else {
      FailedHopFails(chain, w, remaining, hops, n, m - 1);
    }
  }

  /** One pass of the program's loop. */
  method ExecuteHop<W>(chain: Chain<W>, world: W, interim: u64, remaining: seq<Meta>, hop: HopParams, first: bool)
    returns (outcome: Result<Progress<W>>)
    ensures outcome == RunHop(chain, Progress(world, interim), remaining, hop, first)
  {
    hide Rewrite;
    if !InBounds(remaining, hop) { return Err(InvalidHopParams); }
    var output := remaining[hop.outputIndex].key;
    var pre := chain.TokenBalance(world, output);
    if pre.Err? { return Err(pre.error); }
    var data := hop.data;
    if !first { data := Rewrite(data, hop.amountOffset, interim); }
    var accounts := remaining[hop.accountsStart..hop.accountsStart + hop.accountsLen];
    var after := chain.invoke(world, Instruction(remaining[hop.programIndex].key, accounts, data));
    if after.None? { return Err(CallFailed); }
    var post := chain.TokenBalance(after.value, output);
    if post.Err? { return Err(post.error); }
    if post.value <= pre.value { return Err(SwapOutputZero); }
    return Ok(Progress(after.value, post.value - pre.value));
  }

  /** The instruction as the program runs it. */
  method ExecuteArbV2<W>(chain: Chain<W>, w: W, remaining: seq<Meta>, params: Params) returns (r: Result<W>)
    ensures r == Execute(chain, w, remaining, params)
  {
    hide RunHop;
    if remaining == [] || !remaining[0].signer { return Err(SignerRequired); }
    if params.hops == [] { return Err(InvalidHopParams); }
    var profitIndex := params.hops[|params.hops| - 1].outputIndex;
    if profitIndex >= |remaining| { return Err(InvalidHopParams); }
    var profit := remaining[profitIndex].key;
    var startBalance := chain.TokenBalance(w, profit);
    if startBalance.Err? { return Err(startBalance.error); }

    var world, interim: u64 := w, 0;
    var i := 0;
    while i < |params.hops|
      invariant 0 <= i <= |params.hops|
      invariant AfterHops(chain, w, remaining, params.hops, i) == Ok(Progress(world, interim))
    {
      var outcome := ExecuteHop(chain, world, interim, remaining, params.hops[i], i == 0);
      if outcome.Err? {
        FailedHopFails(chain, w, remaining, params.hops, i + 1, |params.hops|);
        return Err(outcome.error);
      }
      world, interim := outcome.value.world, outcome.value.received;
      i := i + 1;
    }

    return ProfitFloor(chain, world, profit, startBalance.value, params.minAmountOut);
  }

  // ---- What success guarantees, whatever the called programs do ----

  /** What is known of hop `i` of a successful run. */
  ghost predicate HopHonest<W(!new)>(chain: Chain<W>, w: W, remaining: seq<Meta>, hops: seq<HopParams>, i: nat)
    requires i < |hops|
  {
    var before, after := AfterHops(chain, w, remaining, hops, i), AfterHops(chain, w, remaining, hops, i + 1);
    && before.Ok? && after.Ok? && InBounds(remaining, hops[i])
    && var call := HopCall(remaining, hops[i], i == 0, before.value.received);
    && var output := remaining[hops[i].outputIndex].key;
    // the call is the one that led from one state to the next
    && chain.invoke(before.value.world, call) == Some(after.value.world)
    // the output account strictly grew, by the amount passed on
    && chain.balance(before.value.world, output).Some? && chain.balance(after.value.world, output).Some?
    && chain.balance(after.value.world, output).value == chain.balance(before.value.world, output).value + after.value.received
    && after.value.received > 0
    // a later hop reads, at its offset, exactly what the hop before was measured to pay
    && (i > 0 && hops[i].amountOffset + 8 <= |hops[i].data| ==>
          FromLittleEndian(call.data[hops[i].amountOffset..hops[i].amountOffset + 8]) == before.value.received)
  }

  lemma {:induction false} EarlierHopsSucceed<W>(chain: Chain<W>, w: W, remaining: seq<Meta>, hops: seq<HopParams>, i: nat, n: nat)
    requires i <= n <= |hops| && AfterHops(chain, w, remaining, hops, n).Ok?
    ensures AfterHops(chain, w, remaining, hops, i).Ok?
  {
    if i == n {
    } else {
      EarlierHopsSucceed(chain, w, remaining, hops, i, n - 1);
    }
  }

  lemma SuccessfulHopIsHonest<W(!new)>(chain: Chain<W>, w: W, remaining: seq<Meta>, hops: seq<HopParams>, i: nat)
    requires i < |hops| && AfterHops(chain, w, remaining, hops, i + 1).Ok?
    ensures HopHonest(chain, w, remaining, hops, i)
  {
    hide Rewrite, FromLittleEndian;
    var before := AfterHops(chain, w, remaining, hops, i);
    assert before.Ok?;
    var hop := hops[i];
    if i > 0 && hop.amountOffset + 8 <= |hop.data| {
      RewriteReadsBack(hop.data, hop.amountOffset, before.value.received);
    }
  }

  /** If the instruction succeeds then every hop was honest. */
  lemma SuccessMakesEveryHopHonest<W(!new)>(chain: Chain<W>, w: W, remaining: seq<Meta>, params: Params, i: nat)
    requires Execute(chain, w, remaining, params).Ok? && i < |params.hops|
    ensures HopHonest(chain, w, remaining, params.hops, i)
  {
    hide HopHonest, RunHop, ProfitFloor;
    EarlierHopsSucceed(chain, w, remaining, params.hops, i + 1, |params.hops|);
    SuccessfulHopIsHonest(chain, w, remaining, params.hops, i);
  }

  /** If the instruction succeeds then the profit account ends at or above its starting balance plus the minimum. */
  lemma SuccessKeepsProfitFloor<W(!new)>(chain: Chain<W>, w: W, remaining: seq<Meta>, params: Params)
    requires Execute(chain, w, remaining, params).Ok?
    ensures params.hops != []
    ensures var last := params.hops[|params.hops| - 1].outputIndex;
            && last < |remaining|
            && var profit := remaining[last].key;
            var end := Execute(chain, w, remaining, params).value;
            && chain.balance(w, profit).Some? && chain.balance(end, profit).Some?
            && chain.balance(end, profit).value >= chain.balance(w, profit).value + params.minAmountOut
  {
    hide RunHop;
  }

  // ---- Exactly when the instruction succeeds ----

  /** One hop takes the program from one state to the next: it is called with its own accounts, from the second on with
      the eight bytes at its offset, if it has them, set to what the hop before was measured to pay; and its output
      account grows by what is measured. */
  ghost predicate HopRuns<W(!new)>(chain: Chain<W>, remaining: seq<Meta>, hop: HopParams, first: bool, before: Progress<W>,
                                   after: Progress<W>) {
    var from, to, at := hop.accountsStart, hop.accountsStart + hop.accountsLen, hop.amountOffset;
    && hop.programIndex < |remaining| && to <= |remaining| && hop.outputIndex < |remaining|
    && var data := if first || at + 8 > |hop.data| then hop.data
                   else hop.data[..at] + Le64(before.received) + hop.data[at + 8..];
    && chain.invoke(before.world, Instruction(remaining[hop.programIndex].key, remaining[from..to], data)) == Some(after.world)
    && var output := remaining[hop.outputIndex].key;
    && chain.balance(before.world, output).Some? && chain.balance(after.world, output).Some?
    && after.received > 0
    && chain.balance(after.world, output).value == chain.balance(before.world, output).value + after.received
  }

  lemma HopSucceedsExactlyWhen<W(!new)>(chain: Chain<W>, remaining: seq<Meta>, hop: HopParams, first: bool, before: Progress<W>,
                                        after: Progress<W>)
    ensures RunHop(chain, before, remaining, hop, first) == Ok(after) <==> HopRuns(chain, remaining, hop, first, before, after)
  {
    hide Le64;
  }

  /** The states the hops go through, one after another. */
  ghost predicate IsTrace<W(!new)>(chain: Chain<W>, w: W, remaining: seq<Meta>, hops: seq<HopParams>, trace: seq<Progress<W>>) {
    && |trace| == |hops| + 1 && trace[0] == Progress(w, 0)
    && forall i :: 0 <= i < |hops| ==> HopRuns(chain, remaining, hops[i], i == 0, trace[i], trace[i + 1])
  }

  lemma {:induction false} TraceIsRun<W(!new)>(chain: Chain<W>, w: W, remaining: seq<Meta>, hops: seq<HopParams>,
                                               trace: seq<Progress<W>>, n: nat)
    requires IsTrace(chain, w, remaining, hops, trace) && n <= |hops|
    ensures AfterHops(chain, w, remaining, hops, n) == Ok(trace[n])
  {
    hide HopRuns, RunHop;
    if n == 0 {
    } else {
      TraceIsRun(chain, w, remaining, hops, trace, n - 1);
      HopSucceedsExactlyWhen(chain, remaining, hops[n - 1], n == 1, trace[n - 1], trace[n]);
    }
  }

  lemma RunIsTrace<W(!new)>(chain: Chain<W>, w: W, remaining: seq<Meta>, hops: seq<HopParams>) returns (trace: seq<Progress<W>>)
    requires AfterHops(chain, w, remaining, hops, |hops|).Ok?
    ensures IsTrace(chain, w, remaining, hops, trace)
    ensures trace[|hops|] == AfterHops(chain, w, remaining, hops, |hops|).value
  {
    hide HopRuns, RunHop;
    forall i | 0 <= i <= |hops| ensures AfterHops(chain, w, remaining, hops, i).Ok? {
      EarlierHopsSucceed(chain, w, remaining, hops, i, |hops|);
    }
    trace := seq(|hops| + 1, i requires 0 <= i <= |hops| => AfterHops(chain, w, remaining, hops, i).value);
    forall i | 0 <= i < |hops| ensures HopRuns(chain, remaining, hops[i], i == 0, trace[i], trace[i + 1]) {
      HopSucceedsExactlyWhen(chain, remaining, hops[i], i == 0, trace[i], trace[i + 1]);
    }
  }

  lemma TraceLength<W(!new)>(chain: Chain<W>, w: W, remaining: seq<Meta>, hops: seq<HopParams>, trace: seq<Progress<W>>)
    requires IsTrace(chain, w, remaining, hops, trace)
    ensures |trace| == |hops| + 1
  {
  }

  /** The instruction leads to a state exactly if the signer signs, there is a hop, the hops run one after another to that
      state, and the last one's output account ends at or above its start plus the minimum. */
  lemma ExecuteSucceedsExactlyWhen<W(!new)>(chain: Chain<W>, w: W, remaining: seq<Meta>, params: Params, end: W)
    ensures Execute(chain, w, remaining, params) == Ok(end) <==>
              && remaining != [] && remaining[0].signer
              && params.hops != [] && params.hops[|params.hops| - 1].outputIndex < |remaining|
              && var profit := remaining[params.hops[|params.hops| - 1].outputIndex].key;
              && chain.balance(w, profit).Some? && chain.balance(end, profit).Some?
              && chain.balance(end, profit).value >= chain.balance(w, profit).value + params.minAmountOut
              && exists trace: seq<Progress<W>> :: IsTrace(chain, w, remaining, params.hops, trace) && trace[|params.hops|].world == end
  {
    hide IsTrace, AfterHops;
    var n := |params.hops|;
    if AfterHops(chain, w, remaining, params.hops, n).Ok? {
      var trace := RunIsTrace(chain, w, remaining, params.hops);
      TraceLength(chain, w, remaining, params.hops, trace);
    }
    forall trace: seq<Progress<W>> | IsTrace(chain, w, remaining, params.hops, trace)
      ensures |trace| == n + 1 && AfterHops(chain, w, remaining, params.hops, n) == Ok(trace[n])
    {
      TraceLength(chain, w, remaining, params.hops, trace);
      TraceIsRun(chain, w, remaining, params.hops, trace, n);
    }
  }

  // ---- Which error a failure reports ----

  /** A hop that does not run reports the first thing that is wrong with it, in this order: an index out of bounds, an
      output account that cannot be read, a failing call, the account unreadable after it, an account that did not grow. */
  lemma HopFailsWith<W(!new)>(chain: Chain<W>, remaining: seq<Meta>, hop: HopParams, first: bool, before: Progress<W>)
    ensures var outcome := RunHop(chain, before, remaining, hop, first);
            if !InBounds(remaining, hop) then outcome == Err(InvalidHopParams) else
            var output := remaining[hop.outputIndex].key;
            var after := chain.invoke(before.world, HopCall(remaining, hop, first, before.received));
            && (chain.balance(before.world, output) == None ==> outcome == Err(InvalidTokenAccount))
            && (chain.balance(before.world, output) != None && after == None ==> outcome == Err(CallFailed))
            && (chain.balance(before.world, output) != None && after != None && chain.balance(after.value, output) == None ==>
                  outcome == Err(InvalidTokenAccount))
            && (outcome.Err? && outcome.error == SwapOutputZero <==>
                  && chain.balance(before.world, output) != None && after != None && chain.balance(after.value, output) != None
                  && chain.balance(after.value, output).value <= chain.balance(before.world, output).value)
  {
    hide HopCall;
  }

  /** The instruction reports the missing signer first, then the missing or misdirected last hop, then the unreadable
      profit account, then the first failing hop, and only then the floor. */
  lemma ExecuteFailsWith<W(!new)>(chain: Chain<W>, w: W, remaining: seq<Meta>, params: Params, i: nat, before: Progress<W>)
    ensures var outcome := Execute(chain, w, remaining, params);
            var n := |params.hops|;
            if remaining == [] || !remaining[0].signer then outcome == Err(SignerRequired)
            else if n == 0 || params.hops[n - 1].outputIndex >= |remaining| then outcome == Err(InvalidHopParams)
            else if chain.balance(w, remaining[params.hops[n - 1].outputIndex].key) == None then outcome == Err(InvalidTokenAccount)
            else i < n && AfterHops(chain, w, remaining, params.hops, i) == Ok(before)
                 && RunHop(chain, before, remaining, params.hops[i], i == 0).Err? ==>
                   outcome == Err(RunHop(chain, before, remaining, params.hops[i], i == 0).error)
  {
    hide RunHop, ProfitFloor;
    var n := |params.hops|;
    if i < n && AfterHops(chain, w, remaining, params.hops, i) == Ok(before)
       && RunHop(chain, before, remaining, params.hops[i], i == 0).Err? {
      assert AfterHops(chain, w, remaining, params.hops, i + 1).Err?;
      FailedHopFails(chain, w, remaining, params.hops, i + 1, n);
    }
  }

  // ---- The threshold the profit floor really sets ----

  /** Between the first hop, which takes `input` out of the profit account, and the last, which pays into it, no hop
      touches it. */
  ghost predicate OnlyEndsTouchProfit<W(!new)>(chain: Chain<W>, w: W, remaining: seq<Meta>, params: Params, input: u64)
    requires |params.hops| >= 2 && params.hops[|params.hops| - 1].outputIndex < |remaining|
  {
    var profit := remaining[params.hops[|params.hops| - 1].outputIndex].key;
    var start := chain.balance(w, profit);
    && start.Some?
    && forall i :: 1 <= i < |params.hops| && AfterHops(chain, w, remaining, params.hops, i).Ok? ==>
         var b := chain.balance(AfterHops(chain, w, remaining, params.hops, i).value.world, profit);
         b.Some? && b.value == start.value - input
  }

  /** Once all hops have run, the instruction succeeds exactly when the last hop paid at least
      `input + minAmountOut`: the starting balance already holds the wrapped input. */
  lemma ProfitFloorExactly<W(!new)>(chain: Chain<W>, w: W, remaining: seq<Meta>, params: Params, input: u64)
    requires remaining != [] && remaining[0].signer
    requires |params.hops| >= 2 && params.hops[|params.hops| - 1].outputIndex < |remaining|
    requires OnlyEndsTouchProfit(chain, w, remaining, params, input)
    requires AfterHops(chain, w, remaining, params.hops, |params.hops|).Ok?
    ensures var lastOutput := AfterHops(chain, w, remaining, params.hops, |params.hops|).value.received;
            var start := chain.balance(w, remaining[params.hops[|params.hops| - 1].outputIndex].key).value;
            Execute(chain, w, remaining, params) ==
              if lastOutput >= input + params.minAmountOut
              then Ok(AfterHops(chain, w, remaining, params.hops, |params.hops|).value.world)
              else Err(if start + params.minAmountOut > U64_MAX then OverflowError else NoProfitDetected)
  {
    hide HopCall, Rewrite, InBounds;
    var n := |params.hops|;
    EarlierHopsSucceed(chain, w, remaining, params.hops, n - 1, n);
  }

  /** The client passes `minAmountOut == input` and calls it break-even. It is not: a swap sequence that returns more
      than it took but less than twice as much is reverted. */
  lemma ProfitableSwapIsReverted<W(!new)>(chain: Chain<W>, w: W, remaining: seq<Meta>, params: Params, input: u64)
    requires remaining != [] && remaining[0].signer && params.minAmountOut == input
    requires |params.hops| >= 2 && params.hops[|params.hops| - 1].outputIndex < |remaining|
    requires OnlyEndsTouchProfit(chain, w, remaining, params, input)
    requires AfterHops(chain, w, remaining, params.hops, |params.hops|).Ok?
    requires input < AfterHops(chain, w, remaining, params.hops, |params.hops|).value.received < 2 * input
    ensures Execute(chain, w, remaining, params).Err?
  {
    ProfitFloorExactly(chain, w, remaining, params, input);
  }

  /** A wallet of two token accounts and two programs: the first swaps 100 of account 10 for 7 of account 20, the
      second swaps 7 back for 150. */
  datatype Purse = Purse(base: u64, other: u64)

  function PurseBalance(w: Purse, account: Key): Option<u64> {
    if account == 10 then Some(w.base) else if account == 20 then Some(w.other) else None
  }

  function PurseInvoke(w: Purse, ix: Instruction): Option<Purse> {
    if ix.program == 1 && w.base >= 100 && w.other <= 1000 then Some(Purse(w.base - 100, w.other + 7))
    else if ix.program == 2 && w.other >= 7 && w.base <= 1000 then Some(Purse(w.base + 150, w.other - 7))
    else None
  }

  /** 100 in and 150 back is reverted with the client's minimum of 100, and succeeds with a minimum of 0. */
  lemma RevertedExample()
    ensures var chain := Chain(PurseBalance, PurseInvoke);
            var remaining := [Meta(0, true, true), Meta(1, false, false), Meta(20, true, false), Meta(2, false, false),
                              Meta(10, true, false)];
            var hops := [HopParams(1, 2, 1, 2, 8, []), HopParams(3, 4, 1, 4, 8, [])];
            && Execute(chain, Purse(100, 0), remaining, Params(100, hops)) == Err(NoProfitDetected)
            && Execute(chain, Purse(100, 0), remaining, Params(0, hops)) == Ok(Purse(150, 0))
  {
    var chain := Chain(PurseBalance, PurseInvoke);
    var remaining := [Meta(0, true, true), Meta(1, false, false), Meta(20, true, false), Meta(2, false, false),
                      Meta(10, true, false)];
    var hops := [HopParams(1, 2, 1, 2, 8, []), HopParams(3, 4, 1, 4, 8, [])];
    assert AfterHops(chain, Purse(100, 0), remaining, hops, 0) == Ok(Progress(Purse(100, 0), 0));
    assert AfterHops(chain, Purse(100, 0), remaining, hops, 1) == Ok(Progress(Purse(0, 7), 7));
    assert AfterHops(chain, Purse(100, 0), remaining, hops, 2) == Ok(Progress(Purse(150, 0), 150));
  }
}
