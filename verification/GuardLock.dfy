/** The guard account shared by `start_check` and `profit_check`: a lock that pins the starting balance until the
    matching profit check succeeds. */
module GuardLock {
  import opened Address
  import opened Machine
  import opened ArbGuard

  /** The guard account's contents; a fresh account is all zero and unlocked. */
  datatype Guard = Guard(startBalance: u64, authority: Key, tokenAccount: Key, locked: bool)

  /** A token account as an instruction sees it. */
  datatype TokenAccount = TokenAccount(key: Key, owner: Key, amount: u64)

  datatype Call =
    | StartCheck(authority: Key, token: TokenAccount)
    | ProfitCheck(authority: Key, token: TokenAccount, minProfit: u64)

  /** What one call does to the guard; an `Err` leaves it alone. */
  function Step(g: Guard, c: Call): Result<Guard> {
    match c
    case StartCheck(authority, token) =>
      if token.owner != authority then Err(TokenAccountOwnerMismatch)
      else if g.locked then Err(GuardAlreadyActive)
      else Ok(Guard(token.amount, authority, token.key, true))
    case ProfitCheck(authority, token, minProfit) =>
      if authority != g.authority then Err(AuthorityMismatch)
      else if token.key != g.tokenAccount then Err(TokenAccountMismatch)
      else if token.owner != authority then Err(TokenAccountOwnerMismatch)
      else if !g.locked then Err(GuardNotActive)
      else if g.startBalance + minProfit > U64_MAX then Err(OverflowError)
      else if token.amount < g.startBalance + minProfit then Err(NoProfitDetected)
      else Ok(g.(locked := false))
  }

  class GuardState {
    var startBalance: u64
    var authority: Key
    var tokenAccount: Key
    var locked: bool

    ghost function View(): Guard
      reads this
    {
      Guard(startBalance, authority, tokenAccount, locked)
    }

    constructor (noKey: Key)
      ensures View() == Guard(0, noKey, noKey, false)
    {
      startBalance, authority, tokenAccount, locked := 0, noKey, noKey, false;
    }

    method Start(caller: Key, token: TokenAccount) returns (r: Result<()>)
      modifies this
      ensures var step := Step(old(View()), StartCheck(caller, token));
              if step.Ok? then r == Ok(()) && View() == step.value else r == Err(step.error) && View() == old(View())
    {
      if token.owner != caller { return Err(TokenAccountOwnerMismatch); }
      if locked { return Err(GuardAlreadyActive); }
      startBalance := token.amount;
      authority := caller;
      tokenAccount := token.key;
      locked := true;
      return Ok(());
    }

    method Check(caller: Key, token: TokenAccount, minProfit: u64) returns (r: Result<()>)
      modifies this
      ensures var step := Step(old(View()), ProfitCheck(caller, token, minProfit));
              if step.Ok? then r == Ok(()) && View() == step.value else r == Err(step.error) && View() == old(View())
    {
      if caller != authority { return Err(AuthorityMismatch); }
      if token.key != tokenAccount { return Err(TokenAccountMismatch); }
      if token.owner != caller { return Err(TokenAccountOwnerMismatch); }
      if !locked { return Err(GuardNotActive); }
      if startBalance + minProfit > U64_MAX { return Err(OverflowError); }
      if token.amount < startBalance + minProfit { return Err(NoProfitDetected); }
      locked := false;
      return Ok(());
    }
  }

  /** A refused profit check names what is wrong: who calls, which account, whose it is, the lock, and the balance last. */
  lemma ProfitCheckFailsWith(g: Guard, caller: Key, token: TokenAccount, minProfit: u64)
    ensures var refused := Step(g, ProfitCheck(caller, token, minProfit));
            && (refused == Err(AuthorityMismatch) <==> caller != g.authority)
            && (refused == Err(TokenAccountMismatch) <==> caller == g.authority && token.key != g.tokenAccount)
            && (refused == Err(GuardNotActive) ==> !g.locked)
            && (refused == Err(OverflowError) ==> g.startBalance + minProfit > U64_MAX)
            && (refused == Err(NoProfitDetected) ==> token.amount < g.startBalance + minProfit <= U64_MAX)
            && (refused.Ok? ==> g.locked && token.owner == caller && token.amount >= g.startBalance + minProfit)
  {
  }

  // ---- Whole runs ----

  /** The guard after a run of calls, failed ones having no effect. */
  function After(g: Guard, calls: seq<Call>): Guard {
    if calls == [] then g else
    var before := After(g, calls[..|calls| - 1]);
    var step := Step(before, calls[|calls| - 1]);
    if step.Ok? then step.value else before
  }

  predicate Accepted(g: Guard, calls: seq<Call>, i: nat)
    requires i < |calls|
  {
    Step(After(g, calls[..i]), calls[i]).Ok?
  }

  /** `i` is the last accepted call before `j`. */
  ghost predicate LastAccepted(g: Guard, calls: seq<Call>, i: nat, j: nat)
    requires i < j <= |calls|
  {
    Accepted(g, calls, i) && forall k :: i < k < j ==> !Accepted(g, calls, k)
  }

  lemma {:induction false} Locked(g: Guard, calls: seq<Call>, j: nat) returns (i: nat)
    requires !g.locked && j <= |calls| && After(g, calls[..j]).locked
    ensures i < j && calls[i].StartCheck? && LastAccepted(g, calls, i, j)
    ensures After(g, calls[..j]) == Guard(calls[i].token.amount, calls[i].authority, calls[i].token.key, true)
  {
    assert calls[..j][..j - 1] == calls[..j - 1];
    if Accepted(g, calls, j - 1) {
      i := j - 1;
    } else {
      i := Locked(g, calls, j - 1);
    }
  }

  /** Every accepted profit check answers one accepted start check, the last accepted call before it, on the same
      token account, and sees a balance at least the minimum above the one recorded there: nothing in between can
      reset the starting balance. */
  lemma ProfitCheckAnswersStartCheck(g: Guard, calls: seq<Call>, j: nat) returns (i: nat)
    requires !g.locked && j < |calls| && calls[j].ProfitCheck? && Accepted(g, calls, j)
    ensures i < j && calls[i].StartCheck? && LastAccepted(g, calls, i, j)
    ensures calls[i].token.key == calls[j].token.key && calls[i].authority == calls[j].authority
    ensures calls[j].token.amount >= calls[i].token.amount + calls[j].minProfit
  {
    i := Locked(g, calls, j);
  }

  lemma {:induction false} LockHeldBetween(g: Guard, calls: seq<Call>, i: nat, j: nat)
    requires i < j <= |calls| && LastAccepted(g, calls, i, j)
    ensures After(g, calls[..j]).locked <==> calls[i].StartCheck?
    decreases j
  {
    assert calls[..j][..j - 1] == calls[..j - 1];
    if j == i + 1 {
    } else {
      LockHeldBetween(g, calls, i, j - 1);
      assert !Accepted(g, calls, j - 1);
    }
  }

  /** Accepted calls alternate: start checks and profit checks take turns, a start check first. */
  lemma {:induction false} AcceptedCallsAlternate(g: Guard, calls: seq<Call>, i: nat, j: nat)
    requires i < j < |calls| && LastAccepted(g, calls, i, j) && Accepted(g, calls, j)
    ensures calls[i].StartCheck? <==> calls[j].ProfitCheck?
  {
    LockHeldBetween(g, calls, i, j);
  }

  /** No call before `j` was accepted. */
  ghost predicate NoneAccepted(g: Guard, calls: seq<Call>, j: nat)
    requires j <= |calls|
  {
    forall k :: 0 <= k < j ==> !Accepted(g, calls, k)
  }

  lemma {:induction false} FreshUntilAccepted(g: Guard, calls: seq<Call>, j: nat)
    requires j <= |calls| && NoneAccepted(g, calls, j)
    ensures After(g, calls[..j]) == g
  {
    if j == 0 {
    } else {
      assert calls[..j][..j - 1] == calls[..j - 1];
      assert !Accepted(g, calls, j - 1);
      FreshUntilAccepted(g, calls, j - 1);
    }
  }

  lemma {:induction false} KeptSinceAccepted(g: Guard, calls: seq<Call>, i: nat, j: nat)
    requires i < j <= |calls| && LastAccepted(g, calls, i, j)
    ensures After(g, calls[..j]) == Step(After(g, calls[..i]), calls[i]).value
  {
    assert calls[..j][..j - 1] == calls[..j - 1];
    if j == i + 1 {
    } else {
      assert !Accepted(g, calls, j - 1);
      KeptSinceAccepted(g, calls, i, j - 1);
    }
  }

  /** When a call is accepted that follows call `i` as the last accepted one: a start check after a profit check, on an
      account the caller owns; a profit check after a start check, by the same caller on the same account, if the balance
      is at least the minimum above the one it recorded. */
  predicate Answers(earlier: Call, later: Call) {
    match later
    case StartCheck(authority, token) => earlier.ProfitCheck? && token.owner == authority
    case ProfitCheck(authority, token, minProfit) =>
      && earlier.StartCheck? && authority == earlier.authority && token.key == earlier.token.key && token.owner == authority
      && token.amount >= earlier.token.amount + minProfit
  }

  /** Of a guard that starts unlocked, call `j` is accepted exactly when it answers the last accepted one, or, as the
      first of all, is a start check on an account the caller owns. */
  lemma AcceptedExactlyWhen(g: Guard, calls: seq<Call>, j: nat)
    requires !g.locked && j < |calls|
    ensures NoneAccepted(g, calls, j) ==>
              (Accepted(g, calls, j) <==> calls[j].StartCheck? && calls[j].token.owner == calls[j].authority)
    ensures forall i :: 0 <= i < j && LastAccepted(g, calls, i, j) ==> (Accepted(g, calls, j) <==> Answers(calls[i], calls[j]))
  {
    if NoneAccepted(g, calls, j) {
      FreshUntilAccepted(g, calls, j);
    }
    forall i | 0 <= i < j && LastAccepted(g, calls, i, j) ensures Accepted(g, calls, j) <==> Answers(calls[i], calls[j]) {
      KeptSinceAccepted(g, calls, i, j);
      LockHeldBetween(g, calls, i, j);
    }
  }
}
