/** One opportunity, several relays, one durable nonce: the protocol between the detector, the relays, the chain's
    nonce register, and one confirmation tracker per relay, over every interleaving of their steps. */
module NonceFanout {
  import opened Address
  import opened Machine
  import opened NoncePool

  /** A tracker is open until it fires `on_settle`; it was confirmed if it fired `on_landed` before. */
  datatype Tracker = Open | Confirmed | Released

  /** One dispatched opportunity: the nonce and hash its bundles are built on (none in the nonce-less mode), one
      tracker for each relay dispatched to, the once-flag they share, and what they have done so far. */
  datatype Opportunity = Opportunity(nonce: Option<(Key, Hash)>, trackers: seq<Tracker>, settledOnce: bool,
                                     settles: nat, credits: nat)

  /** The bundle of opportunity `opp` sent through its relay number `relay`. */
  datatype BundleId = BundleId(opp: nat, relay: nat)

  /** The nonce register of the chain: the current hash, and those that were current before. */
  datatype Register = Register(current: Hash, past: set<Hash>)

  datatype System = System(states: States, collisions: nat, chain: map<Key, Register>,
                           opportunities: seq<Opportunity>, landed: seq<BundleId>)

  datatype Step =
    /** The detector checks a nonce out and sends one bundle to each of `relays` relays, of which there is always one. */
    | Dispatch(now: nat, relays: nat)
    /** The detector sends bundles with an ordinary blockhash: the mode without nonce accounts. */
    | DispatchWithoutNonce(relays: nat)
    /** The detector checks a nonce out and then drops the opportunity at its last profit check. That check repeats one
        the simulator has made on the same number, so the code as it stands never takes this step. */
    | Abort(now: nat)
    /** A bundle is processed on chain; its first instruction advances the nonce to a hash never used before. */
    | Land(bundle: BundleId, next: Hash)
    /** Somebody advances a nonce account otherwise. */
    | Advance(nonce: Key, next: Hash)
    /** The pool hears of a hash, possibly a stale one. */
    | Refresh(nonce: Key, hash: Hash)
    /** The tracker of a bundle ends with a confirmed landing, or otherwise. */
    | Confirm(bundle: BundleId)
    | Release(bundle: BundleId)

  // ---- The relays an opportunity goes to ----

  /** The relays with a tip fraction, always these five. */
  const TIPPED: set<string> := {"jito", "astralane", "nozomi", "bloxroute", "zeroslot"}

  /** The relays the detector is built with that count as configured: Jito has its endpoint from the start, Astralane
      only with a key. */
  function Configured(astralaneKey: bool): set<string> {
    if astralaneKey then {"jito", "astralane"} else {"jito"}
  }

  /** The loop over the tipped relays sends to those that are configured. */
  function DispatchedTo(astralaneKey: bool): set<string> {
    set name | name in TIPPED && name in Configured(astralaneKey)
  }

  /** So every opportunity goes to Jito, and to at most one more. */
  lemma SomeRelayIsDispatchedTo(astralaneKey: bool)
    ensures "jito" in DispatchedTo(astralaneKey)
    ensures |DispatchedTo(astralaneKey)| == if astralaneKey then 2 else 1
  {
    assert DispatchedTo(astralaneKey) == Configured(astralaneKey);
  }

  // ---- One step of the protocol ----

  function Bump(r: Register, next: Hash): Register {
    Register(next, r.past + {r.current})
  }

  predicate IsFresh(r: Register, next: Hash) {
    next != r.current && next !in r.past
  }

  predicate Exists(s: System, b: BundleId) {
    b.opp < |s.opportunities| && b.relay < |s.opportunities[b.opp].trackers|
  }

  /** What the chain accepts: a bundle on a nonce only while its hash is current; no bundle twice. */
  predicate CanLand(s: System, b: BundleId, next: Hash) {
    && Exists(s, b) && b !in s.landed
    && var n := s.opportunities[b.opp].nonce;
    && (n.Some? ==> n.value.0 in s.chain && s.chain[n.value.0].current == n.value.1 && IsFresh(s.chain[n.value.0], next))
  }

  /** Firing `on_settle`: only the first of the opportunity's trackers releases the nonce. */
  function FireSettle(s: System, b: BundleId, outcome: Tracker): System
    requires Exists(s, b)
  {
    var o := s.opportunities[b.opp];
    var first := !o.settledOnce;
    var states := if first && o.nonce.Some? then MarkSettled(s.states, o.nonce.value.0) else s.states;
    s.(states := states,
       opportunities := s.opportunities[b.opp := o.(trackers := o.trackers[b.relay := outcome], settledOnce := true,
                                                    settles := o.settles + (if first then 1 else 0),
                                                    credits := o.credits + (if outcome == Confirmed then 1 else 0))])
  }

  function CheckOut(nonces: seq<Key>, s: System, now: nat): Option<(System, (Key, Hash))>
    requires Complete(nonces, s.states)
  {
    var w := Winner(nonces, s.states);
    if w.None? then None else
    var nonce := nonces[w.value];
    Some((s.(states := MarkUsed(s.states, nonce, now),
             collisions := s.collisions + (if s.states[nonce].inFlight then 1 else 0)),
          (nonce, s.states[nonce].cachedHash.value)))
  }

  function NewOpportunity(nonce: Option<(Key, Hash)>, relays: nat): Opportunity {
    Opportunity(nonce, seq(relays, _ => Open), false, 0, 0)
  }

  /** One step, or `None` when it cannot happen. A landing is reported only of a bundle that landed. */
  function Take(nonces: seq<Key>, s: System, step: Step): (after: Option<System>)
    requires Complete(nonces, s.states)
    ensures after.Some? ==> Complete(nonces, after.value.states)
  {
    match step
    case Dispatch(now, relays) =>
      var out :- CheckOut(nonces, s, now);
      Some(out.0.(opportunities := s.opportunities + [NewOpportunity(Some(out.1), relays)]))
    case DispatchWithoutNonce(relays) =>
      Some(s.(opportunities := s.opportunities + [NewOpportunity(None, relays)]))
    case Abort(now) =>
      var out :- CheckOut(nonces, s, now);
      Some(out.0)
    case Land(b, next) =>
      if !CanLand(s, b, next) then None else
      var n := s.opportunities[b.opp].nonce;
      Some(s.(landed := s.landed + [b],
              chain := if n.Some? then s.chain[n.value.0 := Bump(s.chain[n.value.0], next)] else s.chain))
    case Advance(nonce, next) =>
      if nonce !in s.chain || !IsFresh(s.chain[nonce], next) then None
      else Some(s.(chain := s.chain[nonce := Bump(s.chain[nonce], next)]))
    case Refresh(nonce, hash) => Some(s.(states := SetCachedHash(s.states, nonce, hash)))
    case Confirm(b) =>
      if Exists(s, b) && s.opportunities[b.opp].trackers[b.relay] == Open && b in s.landed
      then Some(FireSettle(s, b, Confirmed)) else None
    case Release(b) =>
      if Exists(s, b) && s.opportunities[b.opp].trackers[b.relay] == Open
      then Some(FireSettle(s, b, Released)) else None
  }

  function Run(nonces: seq<Key>, s: System, steps: seq<Step>): (after: Option<System>)
    requires Complete(nonces, s.states)
    ensures after.Some? ==> Complete(nonces, after.value.states)
  {
    if steps == [] then Some(s) else
    var before :- Run(nonces, s, steps[..|steps| - 1]);
    Take(nonces, before, steps[|steps| - 1])
  }

  /** A current hash was never current before. */
  predicate RegisterSound(s: System, nonce: Key) {
    nonce in s.chain ==> s.chain[nonce].current !in s.chain[nonce].past
  }

  /** Before the first opportunity: nothing sent, nothing in flight, and no current hash was current before. */
  ghost predicate Initial(nonces: seq<Key>, s: System) {
    && Complete(nonces, s.states) && s.opportunities == [] && s.landed == [] && s.collisions == 0
    && (forall n :: n in s.states ==> !s.states[n].inFlight)
    && (forall n :: RegisterSound(s, n))
  }

  // ---- At most one landing for a nonce and hash ----

  function NonceOf(s: System, b: BundleId): Option<(Key, Hash)> {
    if b.opp < |s.opportunities| then s.opportunities[b.opp].nonce else None
  }

  ghost predicate Spent(s: System, n: (Key, Hash)) {
    n.0 in s.chain && n.1 in s.chain[n.0].past
  }

  ghost predicate LandingsInvariant(s: System) {
    && (forall n :: RegisterSound(s, n))
    && (forall i :: 0 <= i < |s.landed| ==> Exists(s, s.landed[i]))
    && (forall i :: 0 <= i < |s.landed| && NonceOf(s, s.landed[i]).Some? ==> Spent(s, NonceOf(s, s.landed[i]).value))
    && (forall i, j :: 0 <= i < j < |s.landed| ==> s.landed[i] != s.landed[j])
    && (forall i, j :: 0 <= i < j < |s.landed| && NonceOf(s, s.landed[i]).Some? ==>
          NonceOf(s, s.landed[i]) != NonceOf(s, s.landed[j]))
  }

  lemma StepKeepsLandings(nonces: seq<Key>, s: System, step: Step)
    requires Complete(nonces, s.states) && LandingsInvariant(s) && Take(nonces, s, step).Some?
    ensures LandingsInvariant(Take(nonces, s, step).value)
  {
    hide Winner, MarkUsed, MarkSettled, SetCachedHash;
    var t := Take(nonces, s, step).value;
    assert forall b: BundleId :: Exists(s, b) ==> Exists(t, b) && NonceOf(t, b) == NonceOf(s, b);
    if step.Land? {
      assert t.landed[|s.landed|] == step.bundle;
      var n := NonceOf(s, step.bundle);
      assert CanLand(s, step.bundle, step.next);
      if n.Some? {
        var (nonce, hash) := n.value;
        assert RegisterSound(s, nonce) && s.chain[nonce].current == hash;
        assert !Spent(s, n.value) && Spent(t, n.value);
      }
    }
    assert forall n :: Spent(s, n) ==> Spent(t, n);
    forall n ensures RegisterSound(t, n) {
      assert RegisterSound(s, n);
    }
  }

  // ---- Trackers, the once-flag, and the credits ----

  function Count(trackers: seq<Tracker>, x: Tracker): nat {
    if trackers == [] then 0
    else Count(trackers[..|trackers| - 1], x) + (if trackers[|trackers| - 1] == x then 1 else 0)
  }

  lemma {:induction false} CountUpdate(trackers: seq<Tracker>, r: nat, x: Tracker, y: Tracker)
    requires r < |trackers| && trackers[r] != y
    ensures Count(trackers[r := x], y) == Count(trackers, y) + if x == y then 1 else 0
  {
    var n := |trackers| - 1;
    if r == n {
      assert trackers[r := x][..n] == trackers[..n];
    } else {
      assert trackers[r := x][..n] == trackers[..n][r := x];
      CountUpdate(trackers[..n], r, x, y);
    }
  }

  lemma {:induction false} CountNone(trackers: seq<Tracker>, x: Tracker)
    requires forall i :: 0 <= i < |trackers| ==> trackers[i] != x
    ensures Count(trackers, x) == 0
  {
    if trackers == [] {
    } else {
      CountNone(trackers[..|trackers| - 1], x);
    }
  }

  lemma {:induction false} CountUnique(trackers: seq<Tracker>, x: Tracker)
    requires forall i, j :: 0 <= i < j < |trackers| ==> trackers[i] != x || trackers[j] != x
    ensures Count(trackers, x) <= 1
    ensures Count(trackers, x) == 1 ==> exists i :: 0 <= i < |trackers| && trackers[i] == x
  {
    if trackers == [] {
    } else {
      CountUnique(trackers[..|trackers| - 1], x);
      if trackers[|trackers| - 1] == x { CountNone(trackers[..|trackers| - 1], x); }
    }
  }
}
