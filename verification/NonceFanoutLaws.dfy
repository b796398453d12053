/** Safety of the nonce fan-out over every run of the protocol. */
module NonceFanoutLaws {
  import opened Address
  import opened Machine
  import opened NoncePool
  import opened NonceFanout

  // ---- Opportunities ----

  ghost predicate OpportunitySound(s: System, i: nat)
    requires i < |s.opportunities|
  {
    var o := s.opportunities[i];
    && (o.settledOnce <==> exists r :: 0 <= r < |o.trackers| && o.trackers[r] != Open)
    && o.settles == (if o.settledOnce then 1 else 0)
    && o.credits == Count(o.trackers, Confirmed)
    && (forall r :: 0 <= r < |o.trackers| && o.trackers[r] == Confirmed ==> BundleId(i, r) in s.landed)
  }

  ghost predicate OpportunitiesSound(s: System) {
    forall i :: 0 <= i < |s.opportunities| ==> OpportunitySound(s, i)
  }

  lemma NewOpportunitySound(s: System, nonce: Option<(Key, Hash)>, relays: nat)
    requires OpportunitiesSound(s)
    ensures OpportunitiesSound(s.(opportunities := s.opportunities + [NewOpportunity(nonce, relays)]))
  {
    var t := s.(opportunities := s.opportunities + [NewOpportunity(nonce, relays)]);
    CountNone(NewOpportunity(nonce, relays).trackers, Confirmed);
    forall i | 0 <= i < |t.opportunities| ensures OpportunitySound(t, i) {
      if i < |s.opportunities| { assert OpportunitySound(s, i); }
    }
  }

  lemma SettleKeepsOpportunities(s: System, b: BundleId, outcome: Tracker)
    requires OpportunitiesSound(s) && Exists(s, b) && s.opportunities[b.opp].trackers[b.relay] == Open && outcome != Open
    requires outcome == Confirmed ==> b in s.landed
    ensures OpportunitiesSound(FireSettle(s, b, outcome))
  {
    var t := FireSettle(s, b, outcome);
    CountUpdate(s.opportunities[b.opp].trackers, b.relay, outcome, Confirmed);
    forall i | 0 <= i < |t.opportunities| ensures OpportunitySound(t, i) {
      assert OpportunitySound(s, i);
      if i == b.opp {
        assert t.opportunities[i].trackers[b.relay] != Open;
      }
    }
  }

  lemma SameOpportunities(s: System, t: System)
    requires OpportunitiesSound(s) && t.opportunities == s.opportunities && s.landed <= t.landed
    ensures OpportunitiesSound(t)
  {
    forall i | 0 <= i < |t.opportunities| ensures OpportunitySound(t, i) {
      assert OpportunitySound(s, i);
    }
  }

  lemma StepKeepsOpportunities(nonces: seq<Key>, s: System, step: Step)
    requires Complete(nonces, s.states) && OpportunitiesSound(s) && Take(nonces, s, step).Some?
    ensures OpportunitiesSound(Take(nonces, s, step).value)
  {
    hide FireSettle, NewOpportunity, OpportunitySound, CanLand, SetCachedHash, Winner, MarkUsed;
    var t := Take(nonces, s, step).value;
    match step
    case Dispatch(now, relays) =>
      var out := CheckOut(nonces, s, now).value;
      SameOpportunities(s, out.0);
      NewOpportunitySound(out.0, Some(out.1), relays);
    case DispatchWithoutNonce(relays) => NewOpportunitySound(s, None, relays);
    case Confirm(b) => SettleKeepsOpportunities(s, b, Confirmed);
    case Release(b) => SettleKeepsOpportunities(s, b, Released);
    case _ => SameOpportunities(s, t);
  }

  lemma {:induction false} RunIsSound(nonces: seq<Key>, s: System, steps: seq<Step>)
    requires Initial(nonces, s) && Run(nonces, s, steps).Some?
    ensures LandingsInvariant(Run(nonces, s, steps).value) && OpportunitiesSound(Run(nonces, s, steps).value)
  {
    if steps == [] {
    } else {
      var before := Run(nonces, s, steps[..|steps| - 1]).value;
      RunIsSound(nonces, s, steps[..|steps| - 1]);
      StepKeepsLandings(nonces, before, steps[|steps| - 1]);
      StepKeepsOpportunities(nonces, before, steps[|steps| - 1]);
    }
  }

  // ---- The theorems ----

  /** Whatever the interleaving, of all the bundles built on one nonce account at one hash, by one opportunity or by
      several that collided, at most one lands. */
  lemma AtMostOneLanding(nonces: seq<Key>, s: System, steps: seq<Step>, i: nat, j: nat)
    requires Initial(nonces, s) && Run(nonces, s, steps).Some?
    requires var t := Run(nonces, s, steps).value;
             i < |t.landed| && j < |t.landed|
             && NonceOf(t, t.landed[i]).Some? && NonceOf(t, t.landed[i]) == NonceOf(t, t.landed[j])
    ensures i == j
  {
    RunIsSound(nonces, s, steps);
  }

  lemma {:induction false} CountAtMost(trackers: seq<Tracker>, x: Tracker)
    ensures Count(trackers, x) <= |trackers|
  {
    if trackers == [] {
    } else {
      CountAtMost(trackers[..|trackers| - 1], x);
    }
  }

  /** Of the trackers of an opportunity on a nonce, only one can be confirmed. */
  lemma OneConfirmed(t: System, o: nat, r: nat, q: nat)
    requires LandingsInvariant(t) && o < |t.opportunities| && OpportunitySound(t, o) && t.opportunities[o].nonce.Some?
    requires r < |t.opportunities[o].trackers| && q < |t.opportunities[o].trackers|
    requires t.opportunities[o].trackers[r] == t.opportunities[o].trackers[q] == Confirmed
    ensures r == q
  {
    var i :| 0 <= i < |t.landed| && t.landed[i] == BundleId(o, r);
    var j :| 0 <= j < |t.landed| && t.landed[j] == BundleId(o, q);
    assert NonceOf(t, t.landed[i]) == NonceOf(t, t.landed[j]) == t.opportunities[o].nonce;
    assert i == j;
  }

  /** Profit is credited at most once per opportunity: on a nonce always, without one if it went to one relay. */
  lemma CreditedAtMostOnce(nonces: seq<Key>, s: System, steps: seq<Step>, o: nat)
    requires Initial(nonces, s) && Run(nonces, s, steps).Some?
    requires o < |Run(nonces, s, steps).value.opportunities|
    requires var opp := Run(nonces, s, steps).value.opportunities[o]; opp.nonce.Some? || |opp.trackers| <= 1
    ensures Run(nonces, s, steps).value.opportunities[o].credits <= 1
  {
    hide LandingsInvariant;
    RunIsSound(nonces, s, steps);
    var t := Run(nonces, s, steps).value;
    var opp := t.opportunities[o];
    assert OpportunitySound(t, o);
    CountAtMost(opp.trackers, Confirmed);
    if opp.nonce.Some? {
      forall r, q | 0 <= r < q < |opp.trackers| ensures opp.trackers[r] != Confirmed || opp.trackers[q] != Confirmed {
        if opp.trackers[r] == Confirmed && opp.trackers[q] == Confirmed {
          OneConfirmed(t, o, r, q);
        }
      }
      CountUnique(opp.trackers, Confirmed);
    }
  }

  /** A credit stands for a landing of that opportunity, and the nonce is released once, by the first of its trackers
      to end. */
  lemma CreditsAreLandings(nonces: seq<Key>, s: System, steps: seq<Step>, o: nat)
    requires Initial(nonces, s) && Run(nonces, s, steps).Some?
    requires o < |Run(nonces, s, steps).value.opportunities|
    ensures var t := Run(nonces, s, steps).value;
            var opp := t.opportunities[o];
            && (opp.credits > 0 ==> exists r :: BundleId(o, r) in t.landed)
            && (opp.settles == 1 <==> exists r :: 0 <= r < |opp.trackers| && opp.trackers[r] != Open)
            && opp.settles <= 1
  {
    RunIsSound(nonces, s, steps);
    var t := Run(nonces, s, steps).value;
    assert OpportunitySound(t, o);
    var trackers := t.opportunities[o].trackers;
    if forall r :: 0 <= r < |trackers| ==> trackers[r] != Confirmed {
      CountNone(trackers, Confirmed);
    } else {
      var r :| 0 <= r < |trackers| && trackers[r] == Confirmed;
      assert BundleId(o, r) in t.landed;
    }
  }

  lemma RunOneMore(nonces: seq<Key>, s: System, steps: seq<Step>, last: Step)
    requires Complete(nonces, s.states)
    ensures Run(nonces, s, steps + [last]) ==
            var before := Run(nonces, s, steps);
            if before.None? then None else Take(nonces, before.value, last)
  {
    hide Take;
    assert (steps + [last])[..|steps|] == steps;
  }

  lemma RunTwoMore(nonces: seq<Key>, s: System, steps: seq<Step>, first: Step, second: Step)
    requires Complete(nonces, s.states)
    ensures Run(nonces, s, steps + [first, second]) ==
            var before := if steps == [] then Some(s) else Run(nonces, s, steps);
            if before.None? then None else
            var between := Take(nonces, before.value, first);
            if between.None? then None else Take(nonces, between.value, second)
  {
    hide Take;
    RunOneMore(nonces, s, steps, first);
    RunOneMore(nonces, s, steps + [first], second);
    assert steps + [first] + [second] == steps + [first, second];
  }

  function CreditTwice(relays: nat): seq<Step> {
    [DispatchWithoutNonce(relays), Land(BundleId(0, 0), 0), Land(BundleId(0, 1), 0),
     Confirm(BundleId(0, 0)), Confirm(BundleId(0, 1))]
  }

  /** Without a nonce, two of the relays can both land the same opportunity, and its profit is credited twice. */
  lemma WithoutNonceCreditedTwice(nonces: seq<Key>, s: System, relays: nat)
    requires Initial(nonces, s) && relays >= 2
    ensures var t := Run(nonces, s, CreditTwice(relays));
            && t.Some? && |t.value.opportunities| == 1
            && t.value.opportunities[0].nonce == None && |t.value.opportunities[0].trackers| == relays
            && t.value.opportunities[0].credits == 2
  {
    hide Run, Winner, SetCachedHash, MarkUsed, MarkSettled;
    var send, land0, land1 := DispatchWithoutNonce(relays), Land(BundleId(0, 0), 0), Land(BundleId(0, 1), 0);
    var paid0, paid1 := Confirm(BundleId(0, 0)), Confirm(BundleId(0, 1));
    var sent := NewOpportunity(None, relays);
    assert s.opportunities + [sent] == [sent];
    var s1 := s.(opportunities := [sent]);
    var s2 := s1.(landed := s1.landed + [BundleId(0, 0)]);
    var s3 := s2.(landed := s2.landed + [BundleId(0, 1)]);
    var s4 := FireSettle(s3, BundleId(0, 0), Confirmed);
    assert Take(nonces, s, send) == Some(s1);
    assert Take(nonces, s1, land0) == Some(s2);
    assert Take(nonces, s2, land1) == Some(s3);
    assert Take(nonces, s3, paid0) == Some(s4);
    assert Take(nonces, s4, paid1) == Some(FireSettle(s4, BundleId(0, 1), Confirmed));
    RunTwoMore(nonces, s, [], send, land0);
    assert [] + [send, land0] == [send, land0];
    RunTwoMore(nonces, s, [send, land0], land1, paid0);
    assert [send, land0] + [land1, paid0] == [send, land0, land1, paid0];
    RunOneMore(nonces, s, [send, land0, land1, paid0], paid1);
    assert [send, land0, land1, paid0] + [paid1] == CreditTwice(relays);
  }

  predicate CreditsTwice(nonces: seq<Key>, s: System, steps: seq<Step>, o: nat, onNonce: bool, relays: nat)
    requires Complete(nonces, s.states)
  {
    var t := Run(nonces, s, steps);
    && t.Some? && o < |t.value.opportunities|
    && var opp := t.value.opportunities[o];
    (opp.nonce.Some? <==> onNonce) && |opp.trackers| == relays && opp.credits >= 2
  }

  /** Some run dispatches an opportunity in this way, with or without a nonce, and credits it more than once. */
  ghost predicate CanBeCreditedTwice(nonces: seq<Key>, s: System, onNonce: bool, relays: nat)
    requires Complete(nonces, s.states)
  {
    exists steps, o :: CreditsTwice(nonces, s, steps, o, onNonce, relays)
  }

  /** Profit can be credited twice exactly without a nonce and with two relays or more. */
  lemma CreditedTwiceExactlyWhen(nonces: seq<Key>, s: System, onNonce: bool, relays: nat)
    requires Initial(nonces, s)
    ensures CanBeCreditedTwice(nonces, s, onNonce, relays) <==> !onNonce && relays >= 2
  {
    hide Run;
    if !onNonce && relays >= 2 {
      WithoutNonceCreditedTwice(nonces, s, relays);
      assert CreditsTwice(nonces, s, CreditTwice(relays), 0, onNonce, relays);
    } else if CanBeCreditedTwice(nonces, s, onNonce, relays) {
      var steps, o :| CreditsTwice(nonces, s, steps, o, onNonce, relays);
      CreditedAtMostOnce(nonces, s, steps, o);
      assert false;
    }
  }

  // ---- When the in-flight mark is right ----

  /** The opportunity holds the nonce: dispatched on it and not yet settled. */
  predicate Holds(s: System, o: int, nonce: Key) {
    && 0 <= o < |s.opportunities| && !s.opportunities[o].settledOnce
    && s.opportunities[o].nonce.Some? && s.opportunities[o].nonce.value.0 == nonce
  }

  /** A nonce marked in flight has a holder. Without collisions, only one, and every holder's nonce is marked. */
  ghost predicate FlightSound(s: System) {
    && (forall o :: 0 <= o < |s.opportunities| && s.opportunities[o].nonce.Some? ==> s.opportunities[o].nonce.value.0 in s.states)
    && (forall n :: n in s.states && s.states[n].inFlight ==> exists o :: Holds(s, o, n))
    && (s.collisions == 0 ==>
         && (forall o, n :: Holds(s, o, n) ==> s.states[n].inFlight)
         && (forall o, p, n :: Holds(s, o, n) && Holds(s, p, n) ==> o == p))
  }

  lemma DispatchKeepsFlight(nonces: seq<Key>, s: System, now: nat, relays: nat)
    requires Complete(nonces, s.states) && FlightSound(s) && Take(nonces, s, Dispatch(now, relays)).Some?
    ensures FlightSound(Take(nonces, s, Dispatch(now, relays)).value)
  {
    hide Winner;
    var t := Take(nonces, s, Dispatch(now, relays)).value;
    var last := |s.opportunities|;
    var used := t.opportunities[last].nonce.value.0;
    assert forall o, n :: Holds(t, o, n) <==> Holds(s, o, n) || (o == last && n == used);
    assert t.collisions == 0 ==> !s.states[used].inFlight;
    assert Holds(t, last, used);
    forall n | n in t.states && t.states[n].inFlight ensures exists o :: Holds(t, o, n) {
      if n != used {
        var o :| Holds(s, o, n);
        assert Holds(t, o, n);
      }
    }
  }

  lemma SettleKeepsFlight(s: System, b: BundleId, outcome: Tracker)
    requires FlightSound(s) && Exists(s, b)
    ensures FlightSound(FireSettle(s, b, outcome))
  {
    var t := FireSettle(s, b, outcome);
    assert forall o, n :: Holds(t, o, n) <==> Holds(s, o, n) && o != b.opp;
    forall o, n | t.collisions == 0 && Holds(t, o, n) ensures t.states[n].inFlight {
      assert Holds(s, o, n) && !Holds(s, b.opp, n);
    }
    forall n | n in t.states && t.states[n].inFlight ensures exists o :: Holds(t, o, n) {
      var o :| Holds(s, o, n);
      assert Holds(t, o, n);
    }
  }

  lemma OtherStepKeepsFlight(s: System, t: System)
    requires FlightSound(s) && t.opportunities == s.opportunities && t.collisions == s.collisions
    requires t.states.Keys == s.states.Keys && forall n :: n in s.states ==> t.states[n].inFlight == s.states[n].inFlight
    ensures FlightSound(t)
  {
    assert forall o, n :: Holds(t, o, n) <==> Holds(s, o, n);
    forall n | n in t.states && t.states[n].inFlight ensures exists o :: Holds(t, o, n) {
      var o :| Holds(s, o, n);
      assert Holds(t, o, n);
    }
  }

  lemma UntrackedKeepsFlight(s: System, relays: nat)
    requires FlightSound(s)
    ensures FlightSound(s.(opportunities := s.opportunities + [NewOpportunity(None, relays)]))
  {
    var t := s.(opportunities := s.opportunities + [NewOpportunity(None, relays)]);
    assert forall o, n :: Holds(t, o, n) <==> Holds(s, o, n);
    forall n | n in t.states && t.states[n].inFlight ensures exists o :: Holds(t, o, n) {
      var o :| Holds(s, o, n);
      assert Holds(t, o, n);
    }
  }

  lemma StepKeepsFlight(nonces: seq<Key>, s: System, step: Step)
    requires Complete(nonces, s.states) && FlightSound(s) && !step.Abort? && Take(nonces, s, step).Some?
    ensures FlightSound(Take(nonces, s, step).value)
  {
    hide FireSettle, NewOpportunity, FlightSound, CanLand, Winner, MarkUsed;
    var t := Take(nonces, s, step).value;
    match step
    case Dispatch(now, relays) => DispatchKeepsFlight(nonces, s, now, relays);
    case DispatchWithoutNonce(relays) => UntrackedKeepsFlight(s, relays);
    case Confirm(b) => SettleKeepsFlight(s, b, Confirmed);
    case Release(b) => SettleKeepsFlight(s, b, Released);
    case _ => OtherStepKeepsFlight(s, t);
  }

  /** In every run without an aborted checkout, a nonce in flight is held by an unsettled opportunity, collisions or
      not. As long as there was no collision it is marked in flight exactly while held, and held by one: a late tracker
      cannot free a nonce that a newer opportunity holds. */
  lemma {:induction false} InFlightIsHeld(nonces: seq<Key>, s: System, steps: seq<Step>)
    requires Initial(nonces, s) && Run(nonces, s, steps).Some?
    requires forall i :: 0 <= i < |steps| ==> !steps[i].Abort?
    ensures FlightSound(Run(nonces, s, steps).value)
  {
    if steps == [] {
    } else {
      var init := steps[..|steps| - 1];
      InFlightIsHeld(nonces, s, init);
      StepKeepsFlight(nonces, Run(nonces, s, init).value, steps[|steps| - 1]);
    }
  }

  // ---- When a nonce is stranded ----

  /** No opportunity holding the nonce has a tracker that could settle it. */
  ghost predicate NobodySettles(s: System, nonce: Key) {
    forall o :: Holds(s, o, nonce) ==> s.opportunities[o].trackers == []
  }

  /** In flight with nobody to settle it. */
  ghost predicate Stranded(s: System, nonce: Key) {
    nonce in s.states && s.states[nonce].inFlight && NobodySettles(s, nonce)
  }

  predicate ChecksOut(nonces: seq<Key>, s: System, step: Step, nonce: Key)
    requires Complete(nonces, s.states)
  {
    (step.Dispatch? || step.Abort?) && Winner(nonces, s.states).Some? && nonces[Winner(nonces, s.states).value] == nonce
  }

  /** The checkout is followed by no bundle at all. */
  predicate SendsNothing(step: Step) {
    step.Abort? || (step.Dispatch? && step.relays == 0)
  }

  lemma SettleKeepsStranded(s: System, b: BundleId, outcome: Tracker, nonce: Key)
    requires Exists(s, b)
    ensures Stranded(FireSettle(s, b, outcome), nonce) <==> Stranded(s, nonce)
  {
    var t := FireSettle(s, b, outcome);
    assert forall o, n :: Holds(t, o, n) <==> Holds(s, o, n) && o != b.opp;
    assert forall o :: Holds(t, o, nonce) ==> t.opportunities[o] == s.opportunities[o];
    assert s.opportunities[b.opp].trackers != [];
  }

  /** What a step does to a nonce: checked out, it is stranded exactly when nothing is sent and nobody was going to
      settle it; otherwise it is stranded exactly when it was before. */
  lemma StrandedExactlyWhen(nonces: seq<Key>, s: System, step: Step, nonce: Key)
    requires Complete(nonces, s.states) && Take(nonces, s, step).Some?
    ensures Stranded(Take(nonces, s, step).value, nonce) <==>
              if ChecksOut(nonces, s, step, nonce) then SendsNothing(step) && NobodySettles(s, nonce)
              else Stranded(s, nonce)
  {
    hide Winner, CanLand;
    var t := Take(nonces, s, step).value;
    var last := |s.opportunities|;
    match step
    case Dispatch(now, relays) =>
      var used := t.opportunities[last].nonce.value.0;
      assert t.opportunities[..last] == s.opportunities;
      assert forall o, n :: Holds(t, o, n) <==> Holds(s, o, n) || (o == last && n == used);
      assert forall o :: 0 <= o < last ==> t.opportunities[o] == s.opportunities[o];
      assert Holds(t, last, used) && |t.opportunities[last].trackers| == relays;
    case DispatchWithoutNonce(relays) =>
      assert forall o, n :: Holds(t, o, n) <==> Holds(s, o, n);
      assert forall o :: 0 <= o < last ==> t.opportunities[o] == s.opportunities[o];
    case Confirm(b) => SettleKeepsStranded(s, b, Confirmed, nonce);
    case Release(b) => SettleKeepsStranded(s, b, Released, nonce);
    case _ => assert forall o, n :: Holds(t, o, n) <==> Holds(s, o, n);
  }

  /** The steps the code takes: the late abort repeats a check the simulator has made on the same number, and some relay
      is always dispatched to. */
  predicate IsTakenByCode(step: Step) {
    !SendsNothing(step)
  }

  /** Over every run of the code no nonce is ever stranded, collisions or not: one in flight has a tracker that will
      release it. */
  lemma {:induction false} NeverStranded(nonces: seq<Key>, s: System, steps: seq<Step>, nonce: Key)
    requires Initial(nonces, s) && Run(nonces, s, steps).Some?
    requires forall i :: 0 <= i < |steps| ==> IsTakenByCode(steps[i])
    ensures !Stranded(Run(nonces, s, steps).value, nonce)
  {
    if steps == [] {
    } else {
      var init := steps[..|steps| - 1];
      NeverStranded(nonces, s, init, nonce);
      StrandedExactlyWhen(nonces, Run(nonces, s, init).value, steps[|steps| - 1], nonce);
    }
  }

  // ---- When a nonce is free too early ----

  /** Free for the next checkout though an unsettled opportunity is on it. */
  ghost predicate FreeYetHeld(s: System, nonce: Key) {
    nonce in s.states && !s.states[nonce].inFlight && exists o :: Holds(s, o, nonce)
  }

  /** The step settles an opportunity on the nonce: it is the first of its trackers to end. */
  predicate Settles(s: System, step: Step, nonce: Key) {
    (step.Confirm? || step.Release?) && Exists(s, step.bundle) && Holds(s, step.bundle.opp, nonce)
  }

  lemma SettleFrees(s: System, b: BundleId, outcome: Tracker, nonce: Key)
    requires Exists(s, b) && nonce in s.states
    ensures FreeYetHeld(FireSettle(s, b, outcome), nonce) <==>
              if Holds(s, b.opp, nonce) then exists o :: o != b.opp && Holds(s, o, nonce) else FreeYetHeld(s, nonce)
  {
    var t := FireSettle(s, b, outcome);
    assert forall o, n :: Holds(t, o, n) <==> Holds(s, o, n) && o != b.opp;
    if o :| o != b.opp && Holds(s, o, nonce) {
      assert Holds(t, o, nonce);
    }
  }

  /** What a step does to that: checking the nonce out ends it; settling an opportunity on the nonce brings it about
      exactly when another one still holds the nonce; every other step leaves it as it was. */
  lemma FreeYetHeldExactlyWhen(nonces: seq<Key>, s: System, step: Step, nonce: Key)
    requires Complete(nonces, s.states) && Take(nonces, s, step).Some? && nonce in s.states
    ensures FreeYetHeld(Take(nonces, s, step).value, nonce) <==>
              if ChecksOut(nonces, s, step, nonce) then false
              else if Settles(s, step, nonce) then exists o :: o != step.bundle.opp && Holds(s, o, nonce)
              else FreeYetHeld(s, nonce)
  {
    hide Winner, CanLand, FireSettle;
    var t := Take(nonces, s, step).value;
    var last := |s.opportunities|;
    match step
    case Dispatch(now, relays) =>
      var used := t.opportunities[last].nonce.value.0;
      assert forall o, n :: Holds(t, o, n) <==> Holds(s, o, n) || (o == last && n == used);
      if o :| Holds(s, o, nonce) { assert Holds(t, o, nonce); }
    case DispatchWithoutNonce(relays) =>
      assert forall o, n :: Holds(t, o, n) <==> Holds(s, o, n);
      if o :| Holds(s, o, nonce) { assert Holds(t, o, nonce); }
    case Confirm(b) => SettleFrees(s, b, Confirmed, nonce);
    case Release(b) => SettleFrees(s, b, Released, nonce);
    case _ =>
      assert forall o, n :: Holds(t, o, n) <==> Holds(s, o, n);
      if o :| Holds(s, o, nonce) { assert Holds(t, o, nonce); }
  }

  /** It takes a collision to get there. */
  lemma FreeYetHeldOnlyAfterCollision(nonces: seq<Key>, s: System, steps: seq<Step>, nonce: Key)
    requires Initial(nonces, s) && Run(nonces, s, steps).Some?
    requires forall i :: 0 <= i < |steps| ==> IsTakenByCode(steps[i])
    requires FreeYetHeld(Run(nonces, s, steps).value, nonce)
    ensures Run(nonces, s, steps).value.collisions > 0
  {
    InFlightIsHeld(nonces, s, steps);
  }

  /** A bundle on the nonce whose tracker has not ended, though the nonce is free. */
  ghost predicate FreeYetOpen(s: System, nonce: Key, b: BundleId) {
    && nonce in s.states && !s.states[nonce].inFlight
    && Exists(s, b) && s.opportunities[b.opp].trackers[b.relay] == Open
    && s.opportunities[b.opp].nonce.Some? && s.opportunities[b.opp].nonce.value.0 == nonce
  }

  /** The first tracker of an opportunity to end frees its nonce while exactly its other trackers are open, and leaves
      each of their bundles able to land exactly if it was before. */
  lemma FirstTrackerFreesTooEarly(s: System, b: BundleId, outcome: Tracker, nonce: Key, sibling: BundleId, next: Hash)
    requires OpportunitiesSound(s) && Exists(s, b) && Holds(s, b.opp, nonce) && nonce in s.states && outcome != Open
    requires sibling.opp == b.opp && Exists(s, sibling)
    ensures var t := FireSettle(s, b, outcome);
            && (FreeYetOpen(t, nonce, sibling) <==> sibling != b)
            && (CanLand(t, sibling, next) <==> CanLand(s, sibling, next))
  {
    assert OpportunitySound(s, b.opp);
  }

  /** A pool of one nonce, whose hash is known and current. */
  ghost predicate IsSingle(s: System, nonce: Key, hash: Hash) {
    && Initial([nonce], s) && nonce in s.states && s.states[nonce].cachedHash == Some(hash)
    && nonce in s.chain && s.chain[nonce].current == hash
  }

  lemma SingleWins(nonce: Key, states: States)
    requires nonce in states && states[nonce].cachedHash.Some?
    ensures Winner([nonce], states) == Some(0)
  {
    assert Best([nonce], states, 0) == None;
  }

  lemma SingleDispatch(nonce: Key, s: System, now: nat, relays: nat)
    requires nonce in s.states && s.states[nonce].cachedHash.Some?
    ensures Take([nonce], s, Dispatch(now, relays)) ==
              Some(s.(states := MarkUsed(s.states, nonce, now),
                      collisions := s.collisions + (if s.states[nonce].inFlight then 1 else 0),
                      opportunities := s.opportunities
                        + [NewOpportunity(Some((nonce, s.states[nonce].cachedHash.value)), relays)]))
  {
    hide Winner;
    SingleWins(nonce, s.states);
  }

  lemma RunThree(nonces: seq<Key>, s: System, a: Step, b: Step, c: Step, s1: System, s2: System)
    requires Complete(nonces, s.states) && Take(nonces, s, a) == Some(s1)
    requires Complete(nonces, s1.states) && Take(nonces, s1, b) == Some(s2) && Complete(nonces, s2.states)
    ensures Run(nonces, s, [a, b, c]) == Take(nonces, s2, c)
  {
    hide Run, Take;
    RunTwoMore(nonces, s, [], a, b);
    assert [] + [a, b] == [a, b];
    RunOneMore(nonces, s, [a, b], c);
    assert [a, b] + [c] == [a, b, c];
  }

  /** Without any collision, two opportunities come to share a nonce and its hash, the older with a bundle that can
      still land: one tracker of two has ended. That at most one of all their bundles lands still holds. */
  lemma SharedWithoutCollision(s: System, nonce: Key, hash: Hash, now: nat, later: nat, next: Hash)
    requires IsSingle(s, nonce, hash) && IsFresh(s.chain[nonce], next)
    ensures var t := Run([nonce], s, [Dispatch(now, 2), Release(BundleId(0, 0)), Dispatch(later, 2)]);
            && t.Some? && t.value.collisions == 0 && |t.value.opportunities| == 2
            && t.value.opportunities[0].nonce == t.value.opportunities[1].nonce == Some((nonce, hash))
            && CanLand(t.value, BundleId(0, 1), next) && CanLand(t.value, BundleId(1, 0), next)
  {
    hide Run, Winner;
    SingleDispatch(nonce, s, now, 2);
    var s1 := Take([nonce], s, Dispatch(now, 2)).value;
    assert s.opportunities + [NewOpportunity(Some((nonce, hash)), 2)] == [NewOpportunity(Some((nonce, hash)), 2)];
    var s2 := FireSettle(s1, BundleId(0, 0), Released);
    assert Take([nonce], s1, Release(BundleId(0, 0))) == Some(s2);
    SingleDispatch(nonce, s2, later, 2);
    RunThree([nonce], s, Dispatch(now, 2), Release(BundleId(0, 0)), Dispatch(later, 2), s1, s2);
  }

  /** After a collision, the older opportunity's tracker frees the nonce the newer one still holds. */
  lemma CollisionFreesHeldNonce(s: System, nonce: Key, hash: Hash, now: nat, later: nat, relays: nat)
    requires IsSingle(s, nonce, hash) && relays > 0
    ensures var t := Run([nonce], s, [Dispatch(now, relays), Dispatch(later, relays), Release(BundleId(0, 0))]);
            && t.Some? && t.value.collisions == 1
            && Holds(t.value, 1, nonce) && FreeYetHeld(t.value, nonce)
  {
    hide Run, Winner;
    SingleDispatch(nonce, s, now, relays);
    var s1 := Take([nonce], s, Dispatch(now, relays)).value;
    assert s.opportunities + [NewOpportunity(Some((nonce, hash)), relays)] == [NewOpportunity(Some((nonce, hash)), relays)];
    SingleDispatch(nonce, s1, later, relays);
    var s2 := Take([nonce], s1, Dispatch(later, relays)).value;
    var s3 := FireSettle(s2, BundleId(0, 0), Released);
    assert Take([nonce], s2, Release(BundleId(0, 0))) == Some(s3);
    RunThree([nonce], s, Dispatch(now, relays), Dispatch(later, relays), Release(BundleId(0, 0)), s1, s2);
    assert Holds(s3, 1, nonce);
  }
}
