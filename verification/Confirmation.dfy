/** The confirmation tracker: collect the bundle ids of one dispatch, poll until a verdict or a timeout, and fire the
    callbacks. Times are in milliseconds. */
module Confirmation {
  import opened Machine

  const CONFIRMATION_TIMEOUT: nat := 12_000
  const POLL_INTERVAL: nat := 3_000
  const FIRST_POLL_DELAY: nat := 1_000
  const MAX_RPC_ERRORS: nat := 2

  /** The relays' answers; an id counts only when the submission succeeded and the id is not empty. */
  datatype RelayResult = RelayResult(success: bool, bundleId: Option<string>)

  datatype Status = Landed | Failed | Pending | RpcError

  datatype Outcome = NoBundle | Confirmed | Rejected | Dropped | GaveUp

  /** The callbacks fired, in order. */
  datatype Event = OnLanded | OnSettle

  /** Everything the tracker does not decide: the answer to each poll and how long it takes to come. */
  datatype Replies = Replies(status: nat -> Status, latency: nat -> nat)

  function IsId(r: RelayResult): bool {
    r.success && r.bundleId.Some? && r.bundleId.value != ""
  }

  function BundleIds(results: seq<RelayResult>): seq<string> {
    if results == [] then [] else
    var last := results[|results| - 1];
    BundleIds(results[..|results| - 1]) + if IsId(last) then [last.bundleId.value] else []
  }

  /** The verdict of polling from `now` on, `polls` polls and `errors` errors in a row into it. */
  function Verdict(replies: Replies, now: nat, deadline: nat, polls: nat, errors: nat): Outcome
    decreases deadline - now
  {
    if now >= deadline then Dropped else
    var later := now + replies.latency(polls) + POLL_INTERVAL;
    match replies.status(polls)
    case Landed => Confirmed
    case Failed => Rejected
    case Pending => Verdict(replies, later, deadline, polls + 1, 0)
    case RpcError =>
      if errors + 1 >= MAX_RPC_ERRORS then GaveUp
      else Verdict(replies, later + POLL_INTERVAL, deadline, polls + 1, errors + 1)
  }

  function Track(results: seq<RelayResult>, jitter: nat, replies: Replies): Outcome {
    if BundleIds(results) == [] then NoBundle
    else Verdict(replies, FIRST_POLL_DELAY + jitter, CONFIRMATION_TIMEOUT, 0, 0)
  }

  /** What a run with both callbacks armed fires: `on_landed` only on a confirmed landing, then `on_settle` always. */
  function Fired(outcome: Outcome, hasLanded: bool, hasSettle: bool): seq<Event> {
    (if outcome == Confirmed && hasLanded then [OnLanded] else []) + (if hasSettle then [OnSettle] else [])
  }

  /** One tracker, with its two one-shot callbacks. */
  class Tracker {
    var landedArmed: bool
    var settleArmed: bool
    var fired: seq<Event>

    constructor (hasLanded: bool, hasSettle: bool)
      ensures landedArmed == hasLanded && settleArmed == hasSettle && fired == []
    {
      landedArmed, settleArmed, fired := hasLanded, hasSettle, [];
    }

    /** Fires the landing callback if it is still there, and disarms it. */
    method TakeLanded()
      modifies this
      ensures !landedArmed && settleArmed == old(settleArmed)
      ensures fired == old(fired) + if old(landedArmed) then [OnLanded] else []
    {
      if landedArmed { fired := fired + [OnLanded]; }
      landedArmed := false;
    }

    method TakeSettle()
      modifies this
      ensures !settleArmed && landedArmed == old(landedArmed)
      ensures fired == old(fired) + if old(settleArmed) then [OnSettle] else []
    {
      if settleArmed { fired := fired + [OnSettle]; }
      settleArmed := false;
    }

    /** The tracker's task, from the relay results received before the collection deadline to its end: it ends, within
        four polls, with the verdict above, having fired exactly the callbacks above. */
    method Run(results: seq<RelayResult>, jitter: nat, replies: Replies) returns (outcome: Outcome, polls: nat)
      modifies this
      ensures outcome == Track(results, jitter, replies)
      ensures fired == old(fired) + Fired(outcome, old(landedArmed), old(settleArmed))
      ensures !settleArmed && polls <= 4
    {
      var bundleIds: seq<string> := [];
      for i := 0 to |results|
        invariant bundleIds == BundleIds(results[..i])
      {
        assert results[..i + 1][..i] == results[..i];
        if IsId(results[i]) { bundleIds := bundleIds + [results[i].bundleId.value]; }
      }
      assert results[..|results|] == results;
      polls := 0;
      if bundleIds == [] {
        TakeSettle();
        return NoBundle, 0;
      }

      var deadline, rpcErrors := CONFIRMATION_TIMEOUT, 0;
      var now := FIRST_POLL_DELAY + jitter;
      while true
        invariant Verdict(replies, now, deadline, polls, rpcErrors) == Track(results, jitter, replies)
        invariant FIRST_POLL_DELAY + polls * POLL_INTERVAL <= now
        invariant polls <= 4
        invariant landedArmed == old(landedArmed) && settleArmed == old(settleArmed) && fired == old(fired)
        decreases deadline - now
      {
        if now >= deadline {
          TakeSettle();
          return Dropped, polls;
        }
        var status := replies.status(polls);
        now := now + replies.latency(polls);
        polls := polls + 1;
        match status {
          case Landed =>
            TakeLanded();
            TakeSettle();
            return Confirmed, polls;
          case Failed =>
            TakeSettle();
            return Rejected, polls;
          case Pending =>
            rpcErrors := 0;
          case RpcError =>
            rpcErrors := rpcErrors + 1;
            if rpcErrors >= MAX_RPC_ERRORS {
              TakeSettle();
              return GaveUp, polls;
            }
            now := now + POLL_INTERVAL;
        }
        now := now + POLL_INTERVAL;
      }
    }
  }

  // ---- What a verdict means ----

  /** Poll `k` was asked: every reply before it was unfinished business, with no two errors in a row. */
  ghost predicate Undecided(replies: Replies, k: nat) {
    && (forall i :: 0 <= i < k ==> replies.status(i) == Pending || replies.status(i) == RpcError)
    && (forall i :: 0 <= i && i + 1 < k ==> !(replies.status(i) == RpcError && replies.status(i + 1) == RpcError))
  }

  /** Time at which poll `k` is made. */
  function PollTime(replies: Replies, jitter: nat, k: nat): nat {
    if k == 0 then FIRST_POLL_DELAY + jitter else
    PollTime(replies, jitter, k - 1) + replies.latency(k - 1) + POLL_INTERVAL
      + (if replies.status(k - 1) == RpcError then POLL_INTERVAL else 0)
  }

  function ErrorsBefore(replies: Replies, k: nat): nat {
    if k > 0 && replies.status(k - 1) == RpcError then 1 else 0
  }

  lemma {:induction false} VerdictFrom(replies: Replies, jitter: nat, k: nat) returns (last: nat)
    requires Undecided(replies, k)
    ensures k <= last && Undecided(replies, last)
    ensures match Verdict(replies, PollTime(replies, jitter, k), CONFIRMATION_TIMEOUT, k, ErrorsBefore(replies, k))
            case Confirmed => PollTime(replies, jitter, last) < CONFIRMATION_TIMEOUT && replies.status(last) == Landed
            case Rejected => PollTime(replies, jitter, last) < CONFIRMATION_TIMEOUT && replies.status(last) == Failed
            case Dropped => PollTime(replies, jitter, last) >= CONFIRMATION_TIMEOUT
            case GaveUp => PollTime(replies, jitter, last) < CONFIRMATION_TIMEOUT && last > 0
                           && replies.status(last) == RpcError && replies.status(last - 1) == RpcError
            case NoBundle => false
    decreases CONFIRMATION_TIMEOUT - PollTime(replies, jitter, k)
  {
    last := k;
    if PollTime(replies, jitter, k) >= CONFIRMATION_TIMEOUT {
    } else {
      var status := replies.status(k);
      if status == Pending || (status == RpcError && ErrorsBefore(replies, k) == 0) {
        last := VerdictFrom(replies, jitter, k + 1);
      }
    }
  }

  lemma {:induction false} PollTimeGrows(replies: Replies, jitter: nat, i: nat, k: nat)
    requires i <= k
    ensures PollTime(replies, jitter, i) <= PollTime(replies, jitter, k)
  {
    if i == k {
    } else {
      PollTimeGrows(replies, jitter, i, k - 1);
    }
  }

  /** An undecided poll before the deadline is reached. */
  lemma {:induction false} ReachesPoll(replies: Replies, jitter: nat, k: nat, i: nat)
    requires i <= k && Undecided(replies, k) && PollTime(replies, jitter, k) < CONFIRMATION_TIMEOUT
    ensures Verdict(replies, PollTime(replies, jitter, i), CONFIRMATION_TIMEOUT, i, ErrorsBefore(replies, i))
         == Verdict(replies, PollTime(replies, jitter, k), CONFIRMATION_TIMEOUT, k, ErrorsBefore(replies, k))
    decreases k - i
  {
    if i == k {
    } else {
      PollTimeGrows(replies, jitter, i, k);
      ReachesPoll(replies, jitter, k, i + 1);
    }
  }

  /** There is something to track exactly when some relay took the bundle and named it. */
  lemma {:induction false} SomeIdExactlyWhen(results: seq<RelayResult>)
    ensures BundleIds(results) != [] <==>
              exists i :: 0 <= i < |results| && results[i].success && results[i].bundleId.Some? && results[i].bundleId.value != ""
  {
    if results == [] {
    } else {
      var n := |results| - 1;
      SomeIdExactlyWhen(results[..n]);
      assert forall i :: 0 <= i < n ==> results[..n][i] == results[i];
      assert results[n] == results[|results| - 1];
    }
  }

  /** An armed `on_settle` fires exactly once and last, whatever the outcome; an armed `on_landed` exactly once if the
      landing is confirmed, and not otherwise. */
  lemma SettlesOnceAndLast(outcome: Outcome, hasLanded: bool, hasSettle: bool)
    ensures var fired := multiset(Fired(outcome, hasLanded, hasSettle));
            && fired[OnSettle] == (if hasSettle then 1 else 0)
            && fired[OnLanded] == (if hasLanded && outcome == Confirmed then 1 else 0)
    ensures hasSettle ==> Fired(outcome, hasLanded, hasSettle)[|Fired(outcome, hasLanded, hasSettle)| - 1] == OnSettle
  {
  }

  /** A tracker confirms exactly when some poll before the deadline answers `Landed` and every poll before that one
      left the matter open, no two of them in a row being errors. */
  lemma ConfirmedExactlyWhen(results: seq<RelayResult>, jitter: nat, replies: Replies)
    ensures Track(results, jitter, replies) == Confirmed <==>
              && BundleIds(results) != []
              && exists k :: 0 <= k && Undecided(replies, k) && PollTime(replies, jitter, k) < CONFIRMATION_TIMEOUT
                             && replies.status(k) == Landed
  {
    if BundleIds(results) != [] {
      var last := VerdictFrom(replies, jitter, 0);
      assert ErrorsBefore(replies, 0) == 0 && PollTime(replies, jitter, 0) == FIRST_POLL_DELAY + jitter;
      if k :| 0 <= k && Undecided(replies, k) && PollTime(replies, jitter, k) < CONFIRMATION_TIMEOUT
              && replies.status(k) == Landed {
        ReachesPoll(replies, jitter, k, 0);
      }
    }
  }
}
