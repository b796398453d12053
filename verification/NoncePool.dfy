/** The pool of durable nonces: which nonce a bundle is built on. */
module NoncePool {
  import opened Address
  import opened Machine

  type Hash = int

  datatype NonceState = NonceState(lastUsed: nat, inFlight: bool, cachedHash: Option<Hash>)

  type States = map<Key, NonceState>

  /** Every configured nonce has a state. */
  predicate Complete(nonces: seq<Key>, states: States) {
    forall i :: 0 <= i < |nonces| ==> nonces[i] in states
  }

  predicate IsCached(nonces: seq<Key>, states: States, i: nat)
    requires Complete(nonces, states) && i < |nonces|
  {
    states[nonces[i]].cachedHash.Some?
  }

  // ---- Selection ----

  /** `candidate` replaces `current` as the best so far. */
  predicate Replaces(current: NonceState, currentIndex: nat, candidate: NonceState, candidateIndex: nat) {
    if current.inFlight && !candidate.inFlight then true
    else if !current.inFlight && candidate.inFlight then false
    else if candidate.lastUsed == current.lastUsed then candidateIndex < currentIndex
    else candidate.lastUsed < current.lastUsed
  }

  /** The best among the first `n` configured nonces. */
  function Best(nonces: seq<Key>, states: States, n: nat): (best: Option<nat>)
    requires Complete(nonces, states) && n <= |nonces|
    ensures best.Some? ==> best.value < n && IsCached(nonces, states, best.value)
  {
    if n == 0 then None else
    var best := Best(nonces, states, n - 1);
    if !IsCached(nonces, states, n - 1) then best
    else if best.None? || Replaces(states[nonces[best.value]], best.value, states[nonces[n - 1]], n - 1) then Some(n - 1)
    else best
  }

  function Winner(nonces: seq<Key>, states: States): (w: Option<nat>)
    requires Complete(nonces, states)
    ensures w.Some? ==> w.value < |nonces| && IsCached(nonces, states, w.value)
  {
    Best(nonces, states, |nonces|)
  }

  /** Lexicographic order on (in flight, last used, position in the configuration). */
  predicate AtMost(nonces: seq<Key>, states: States, i: nat, j: nat)
    requires Complete(nonces, states) && i < |nonces| && j < |nonces|
  {
    var a, b := states[nonces[i]], states[nonces[j]];
    if a.inFlight != b.inFlight then b.inFlight
    else if a.lastUsed != b.lastUsed then a.lastUsed < b.lastUsed
    else i <= j
  }

  /** The selection finds the least cached nonce, if any is cached. */
  lemma {:induction false} BestIsLeast(nonces: seq<Key>, states: States, n: nat)
    requires Complete(nonces, states) && n <= |nonces|
    ensures Best(nonces, states, n).None? <==> forall i :: 0 <= i < n ==> !IsCached(nonces, states, i)
    ensures Best(nonces, states, n).Some? ==>
              forall i :: 0 <= i < n && IsCached(nonces, states, i) ==>
                AtMost(nonces, states, Best(nonces, states, n).value, i)
  {
    if n == 0 {
    } else {
      BestIsLeast(nonces, states, n - 1);
    }
  }

  /** A nonce already in flight is handed out only when every cached nonce is in flight. */
  lemma CollisionOnlyWhenAllInFlight(nonces: seq<Key>, states: States, i: nat)
    requires Complete(nonces, states) && Winner(nonces, states).Some?
    requires states[nonces[Winner(nonces, states).value]].inFlight
    requires i < |nonces| && IsCached(nonces, states, i)
    ensures states[nonces[i]].inFlight
  {
    BestIsLeast(nonces, states, |nonces|);
  }

  // ---- Operations on the states ----

  function MarkUsed(states: States, nonce: Key, now: nat): States
    requires nonce in states
  {
    states[nonce := states[nonce].(lastUsed := now, inFlight := true)]
  }

  function MarkSettled(states: States, nonce: Key): States {
    if nonce in states then states[nonce := states[nonce].(inFlight := false)] else states
  }

  function SetCachedHash(states: States, nonce: Key, hash: Hash): States {
    if nonce in states then states[nonce := states[nonce].(cachedHash := Some(hash))] else states
  }

  class Pool {
    const nonces: seq<Key>
    var states: States
    var collisions: nat

    ghost predicate Valid()
      reads this
    {
      Complete(nonces, states)
    }

    constructor (nonces: seq<Key>, epoch: nat)
      ensures Valid() && this.nonces == nonces && collisions == 0
      ensures forall n :: n in states <==> n in nonces
      ensures forall n :: n in states ==> states[n] == NonceState(epoch, false, None)
    {
      this.nonces := nonces;
      var initial: States := map[];
      for i := 0 to |nonces|
        invariant forall j :: 0 <= j < i ==> nonces[j] in initial
        invariant forall n :: n in initial ==> n in nonces
        invariant forall n :: n in initial ==> initial[n] == NonceState(epoch, false, None)
      {
        initial := initial[nonces[i] := NonceState(epoch, false, None)];
      }
      states := initial;
      collisions := 0;
    }

    /** Hands out the least cached nonce with its hash and marks it in flight; says nothing while no hash is known. */
    method Checkout(now: nat) returns (r: Option<(Key, Hash)>)
      requires Valid()
      modifies this
      ensures Valid()
      ensures match Winner(nonces, old(states))
              case None => r == None && states == old(states) && collisions == old(collisions)
              case Some(i) =>
                && r == Some((nonces[i], old(states)[nonces[i]].cachedHash.value))
                && states == MarkUsed(old(states), nonces[i], now)
                && collisions == old(collisions) + (if old(states)[nonces[i]].inFlight then 1 else 0)
    {
      var best: Option<nat> := None;
      for i := 0 to |nonces|
        invariant best == Best(nonces, states, i)
      {
        var candidate := states[nonces[i]];
        if candidate.cachedHash.None? { continue; }
        if best.None? {
          best := Some(i);
        } else {
          var current := states[nonces[best.value]];
          if current.inFlight && !candidate.inFlight {
            best := Some(i);
          } else if current.inFlight == candidate.inFlight {
            if candidate.lastUsed < current.lastUsed || (candidate.lastUsed == current.lastUsed && i < best.value) {
              best := Some(i);
            }
          }
        }
      }
      if best.None? { return None; }
      var nonce := nonces[best.value];
      var previous := states[nonce];
      if previous.inFlight { collisions := collisions + 1; }
      states := states[nonce := states[nonce].(lastUsed := now, inFlight := true)];
      return Some((nonce, previous.cachedHash.value));
    }

    method Settle(nonce: Key)
      requires Valid()
      modifies this`states
      ensures Valid() && states == MarkSettled(old(states), nonce)
    {
      if nonce in states {
        states := states[nonce := states[nonce].(inFlight := false)];
      }
    }

    method UpdateCachedHash(nonce: Key, hash: Hash)
      requires Valid()
      modifies this`states
      ensures Valid() && states == SetCachedHash(old(states), nonce, hash)
    {
      if nonce in states {
        states := states[nonce := states[nonce].(cachedHash := Some(hash))];
      }
    }
  }

  // ---- Fairness over whole runs ----

  datatype Operation = Checkout(now: nat) | Settle(nonce: Key) | Refresh(nonce: Key, hash: Hash)

  function Apply(nonces: seq<Key>, states: States, op: Operation): (after: States)
    requires Complete(nonces, states)
    ensures Complete(nonces, after) && after.Keys == states.Keys
  {
    match op
    case Checkout(now) =>
      var w := Winner(nonces, states);
      if w.None? then states else MarkUsed(states, nonces[w.value], now)
    case Settle(nonce) => MarkSettled(states, nonce)
    case Refresh(nonce, hash) => SetCachedHash(states, nonce, hash)
  }

  /** The states after the first `n` operations. */
  function After(nonces: seq<Key>, states: States, ops: seq<Operation>, n: nat): (after: States)
    requires Complete(nonces, states) && n <= |ops|
    ensures Complete(nonces, after) && after.Keys == states.Keys
  {
    if n == 0 then states else Apply(nonces, After(nonces, states, ops, n - 1), ops[n - 1])
  }

  /** Operation `k` is a checkout that hands out `nonce`. */
  predicate Yields(nonces: seq<Key>, states: States, ops: seq<Operation>, k: nat, nonce: Key)
    requires Complete(nonces, states) && k < |ops|
  {
    && ops[k].Checkout?
    && var w := Winner(nonces, After(nonces, states, ops, k));
    w.Some? && nonces[w.value] == nonce
  }

  /** Checkout times strictly increase, from after the initial last-used times. */
  ghost predicate Ticking(states: States, ops: seq<Operation>) {
    && (forall n, k :: n in states && 0 <= k < |ops| && ops[k].Checkout? ==> states[n].lastUsed < ops[k].now)
    && (forall j, k :: 0 <= j < k < |ops| && ops[j].Checkout? && ops[k].Checkout? ==> ops[j].now < ops[k].now)
  }

  lemma {:induction false} LastUsedBefore(nonces: seq<Key>, states: States, ops: seq<Operation>, n: nat, nonce: Key, k: nat)
    requires Complete(nonces, states) && Ticking(states, ops)
    requires n <= k < |ops| && ops[k].Checkout? && nonce in states
    ensures After(nonces, states, ops, n)[nonce].lastUsed < ops[k].now
  {
    if n == 0 {
    } else {
      LastUsedBefore(nonces, states, ops, n - 1, nonce, k);
    }
  }

  /** Between `m` and `n`, a nonce not checked out keeps its last-used time. */
  lemma {:induction false} LastUsedKept(nonces: seq<Key>, states: States, ops: seq<Operation>, m: nat, n: nat, nonce: Key)
    requires Complete(nonces, states) && m <= n <= |ops| && nonce in states
    requires forall k :: m <= k < n ==> !Yields(nonces, states, ops, k, nonce)
    ensures After(nonces, states, ops, n)[nonce].lastUsed == After(nonces, states, ops, m)[nonce].lastUsed
  {
    if m == n {
    } else {
      LastUsedKept(nonces, states, ops, m, n - 1, nonce);
      assert !Yields(nonces, states, ops, n - 1, nonce);
    }
  }

  lemma CheckoutStamps(nonces: seq<Key>, states: States, ops: seq<Operation>, k: nat, a: Key, other: Key)
    requires Complete(nonces, states) && k < |ops| && Yields(nonces, states, ops, k, a)
    ensures a in states && After(nonces, states, ops, k + 1)[a].lastUsed == ops[k].now
    ensures other in states && other != a ==>
              After(nonces, states, ops, k + 1)[other].lastUsed == After(nonces, states, ops, k)[other].lastUsed
  {
    hide Winner;
  }

  lemma LeastUsedWins(nonces: seq<Key>, states: States, a: Key, b: nat)
    requires Complete(nonces, states) && b < |nonces| && IsCached(nonces, states, b) && !states[nonces[b]].inFlight
    requires Winner(nonces, states).Some? && nonces[Winner(nonces, states).value] == a
    ensures states[a].lastUsed <= states[nonces[b]].lastUsed
  {
    BestIsLeast(nonces, states, |nonces|);
  }

  predicate BringsNews(op: Operation, nonce: Key) {
    op.Refresh? && op.nonce == nonce
  }

  /** Operation `k` is the last before `n` to bring news of the nonce. */
  ghost predicate LastHeard(ops: seq<Operation>, n: nat, nonce: Key, hash: Hash, k: int)
    requires n <= |ops|
  {
    && 0 <= k < n && ops[k] == Refresh(nonce, hash)
    && forall j :: k < j < n ==> !BringsNews(ops[j], nonce)
  }

  ghost predicate WasHeardLast(ops: seq<Operation>, n: nat, nonce: Key, hash: Hash)
    requires n <= |ops|
  {
    exists k :: LastHeard(ops, n, nonce, hash, k)
  }

  lemma OnlyNewsChangesHash(nonces: seq<Key>, states: States, op: Operation, nonce: Key)
    requires Complete(nonces, states) && nonce in states
    ensures Apply(nonces, states, op)[nonce].cachedHash ==
            if BringsNews(op, nonce) then Some(op.hash) else states[nonce].cachedHash
  {
    hide Winner;
  }

  lemma LastHeardNext(ops: seq<Operation>, n: nat, nonce: Key, hash: Hash)
    requires n < |ops|
    ensures WasHeardLast(ops, n + 1, nonce, hash) <==>
              if BringsNews(ops[n], nonce) then ops[n].hash == hash else WasHeardLast(ops, n, nonce, hash)
  {
    var next := n + 1;
    if BringsNews(ops[n], nonce) {
      assert ops[n].hash == hash ==> LastHeard(ops, next, nonce, hash, n);
    } else {
      forall k ensures LastHeard(ops, next, nonce, hash, k) <==> LastHeard(ops, n, nonce, hash, k) {
      }
    }
  }

  lemma NothingHeard(ops: seq<Operation>, nonce: Key, hash: Hash)
    ensures !WasHeardLast(ops, 0, nonce, hash)
  {
  }

  /** The hash kept for a nonce, which a checkout hands out, is the last one heard; or the one it started with, if none
      was heard. Checkouts and settlements do not touch it. */
  lemma {:induction false} CachedHashIsLastHeard(nonces: seq<Key>, states: States, ops: seq<Operation>, n: nat, nonce: Key, hash: Hash)
    requires Complete(nonces, states) && n <= |ops| && nonce in states
    ensures After(nonces, states, ops, n)[nonce].cachedHash == Some(hash) <==>
              || WasHeardLast(ops, n, nonce, hash)
              || (states[nonce].cachedHash == Some(hash) && forall j :: 0 <= j < n ==> !BringsNews(ops[j], nonce))
  {
    hide Apply, WasHeardLast;
    if n == 0 {
      NothingHeard(ops, nonce, hash);
    } else {
      CachedHashIsLastHeard(nonces, states, ops, n - 1, nonce, hash);
      LastHeardNext(ops, n - 1, nonce, hash);
      OnlyNewsChangesHash(nonces, After(nonces, states, ops, n - 1), ops[n - 1], nonce);
    }
  }

  /** Round-robin: when a nonce is handed out again, every other nonce that is cached and free at that moment has been
      handed out since. */
  lemma NobodyIsSkipped(nonces: seq<Key>, states: States, ops: seq<Operation>, first: nat, again: nat, a: Key, b: nat)
    returns (k: nat)
    requires Complete(nonces, states) && Ticking(states, ops)
    requires first < again < |ops|
    requires Yields(nonces, states, ops, first, a) && Yields(nonces, states, ops, again, a)
    requires forall j :: first < j < again ==> !Yields(nonces, states, ops, j, a)
    requires b < |nonces| && nonces[b] != a
    requires IsCached(nonces, After(nonces, states, ops, again), b) && !After(nonces, states, ops, again)[nonces[b]].inFlight
    ensures first < k < again && Yields(nonces, states, ops, k, nonces[b])
  {
    hide After, Apply, Winner, IsCached;
    assert After(nonces, states, ops, again)[a].lastUsed <= After(nonces, states, ops, again)[nonces[b]].lastUsed by {
      LeastUsedWins(nonces, After(nonces, states, ops, again), a, b);
    }
    CheckoutStamps(nonces, states, ops, first, a, nonces[b]);
    LastUsedKept(nonces, states, ops, first + 1, again, a);
    if forall j :: first < j < again ==> !Yields(nonces, states, ops, j, nonces[b]) {
      LastUsedKept(nonces, states, ops, first + 1, again, nonces[b]);
      LastUsedBefore(nonces, states, ops, first, nonces[b], first);
    }
    k :| first < k < again && Yields(nonces, states, ops, k, nonces[b]);
  }
}
