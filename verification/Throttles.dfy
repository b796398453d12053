/** The engine's three throttles: the relay rate limiter, the router's limit on repeated submissions of one route, and
    the router's skip of pools already processed in a slot. Times are in milliseconds. */
module Throttles {
  import opened Address
  import opened Machine

  // ---- Rate limiter ----

  /** One call: the clock read for the comparison, and read again for the stamp of a grant. */
  datatype Reading = Reading(checked: nat, stamped: nat)

  ghost predicate Clock(readings: seq<Reading>) {
    && (forall i :: 0 <= i < |readings| ==> readings[i].checked <= readings[i].stamped)
    && (forall i, j :: 0 <= i < j < |readings| ==> readings[i].stamped <= readings[j].checked)
  }

  predicate Allows(lastSubmit: int, minInterval: nat, r: Reading) {
    r.checked - lastSubmit >= minInterval
  }

  class RateLimiter {
    var lastSubmit: int
    const minInterval: nat

    constructor (minInterval: nat, now: int)
      ensures this.minInterval == minInterval && lastSubmit == now - 60_000
    {
      this.minInterval := minInterval;
      lastSubmit := now - 60_000;
    }

    method Check(r: Reading) returns (granted: bool)
      modifies this
      ensures granted == Allows(old(lastSubmit), minInterval, r)
      ensures lastSubmit == if granted then r.stamped else old(lastSubmit)
    {
      if r.checked - lastSubmit < minInterval { return false; }
      lastSubmit := r.stamped;
      return true;
    }
  }

  function LastSubmit(start: int, minInterval: nat, readings: seq<Reading>): int {
    if readings == [] then start else
    var before := LastSubmit(start, minInterval, readings[..|readings| - 1]);
    var r := readings[|readings| - 1];
    if Allows(before, minInterval, r) then r.stamped else before
  }

  /** Stamps of the grants, oldest first. */
  function Grants(start: int, minInterval: nat, readings: seq<Reading>): seq<nat> {
    if readings == [] then [] else
    var init, r := readings[..|readings| - 1], readings[|readings| - 1];
    Grants(start, minInterval, init) + if Allows(LastSubmit(start, minInterval, init), minInterval, r) then [r.stamped] else []
  }

  ghost predicate Spaced(times: seq<nat>, gap: nat) {
    forall i, j :: 0 <= i < j < |times| ==> times[i] + gap <= times[j]
  }

  lemma AppendSpaced(times: seq<nat>, gap: nat, t: nat)
    requires Spaced(times, gap) && (times != [] ==> times[|times| - 1] + gap <= t)
    ensures Spaced(times + [t], gap)
  {
    forall i | 0 <= i < |times| ensures times[i] + gap <= t {
      if i < |times| - 1 { assert times[i] + gap <= times[|times| - 1]; }
    }
  }

  /** Any two grants are at least the minimum interval apart. */
  lemma {:induction false} GrantsAreSpaced(start: int, minInterval: nat, readings: seq<Reading>)
    requires Clock(readings)
    ensures Spaced(Grants(start, minInterval, readings), minInterval)
    ensures var g := Grants(start, minInterval, readings);
            LastSubmit(start, minInterval, readings) == if g == [] then start else g[|g| - 1]
  {
    if readings == [] {
    } else {
      var init := readings[..|readings| - 1];
      var last := readings[|readings| - 1];
      assert Clock(init);
      GrantsAreSpaced(start, minInterval, init);
      if Allows(LastSubmit(start, minInterval, init), minInterval, last) {
        AppendSpaced(Grants(start, minInterval, init), minInterval, last.stamped);
      }
    }
  }

  /** Every grant comes at least the interval after the start. */
  lemma {:induction false} LateEnough(start: int, minInterval: nat, readings: seq<Reading>)
    requires Clock(readings)
    ensures var g := Grants(start, minInterval, readings);
            forall i :: 0 <= i < |g| ==> start + minInterval <= g[i]
  {
    if readings == [] {
    } else {
      var init := readings[..|readings| - 1];
      assert Clock(init);
      LateEnough(start, minInterval, init);
      GrantsAreSpaced(start, minInterval, init);
      assert readings[|readings| - 1].checked <= readings[|readings| - 1].stamped;
    }
  }

  /** A call is granted exactly when the interval has passed since the start and since every earlier grant. */
  lemma GrantedExactlyWhen(start: int, minInterval: nat, readings: seq<Reading>, r: Reading)
    requires Clock(readings + [r])
    ensures var before := Grants(start, minInterval, readings);
            Grants(start, minInterval, readings + [r]) ==
              if start + minInterval <= r.checked && (forall i :: 0 <= i < |before| ==> before[i] + minInterval <= r.checked)
              then before + [r.stamped] else before
  {
    var all := readings + [r];
    assert all[..|all| - 1] == readings;
    assert Clock(readings) by {
      forall i | 0 <= i < |readings| ensures readings[i] == all[i] {
      }
    }
    GrantsAreSpaced(start, minInterval, readings);
    LateEnough(start, minInterval, readings);
  }

  /** The limiter starts as if its last grant were a minute old, so its first call is granted if the interval is no
      longer than that. */
  lemma FirstCallGranted(now: nat, minInterval: nat, r: Reading)
    requires now <= r.checked <= r.stamped && minInterval <= 60_000
    ensures Grants(now - 60_000, minInterval, [r]) == [r.stamped]
  {
    assert [] + [r] == [r];
    GrantedExactlyWhen(now - 60_000, minInterval, [], r);
  }

  function InWindow(times: seq<nat>, lo: nat, hi: int): nat {
    if times == [] then 0 else
    InWindow(times[..|times| - 1], lo, hi) + (if lo <= times[|times| - 1] <= hi then 1 else 0)
  }

  lemma {:induction false} WindowCut(times: seq<nat>, lo: nat, hi: int, cut: int)
    requires cut <= hi && forall i :: 0 <= i < |times| ==> times[i] <= cut
    ensures InWindow(times, lo, hi) == InWindow(times, lo, cut)
  {
    if times == [] {
    } else {
      WindowCut(times[..|times| - 1], lo, hi, cut);
    }
  }

  lemma {:induction false} WindowEmpty(times: seq<nat>, lo: nat, hi: int)
    requires hi < lo
    ensures InWindow(times, lo, hi) == 0
  {
    if times == [] {
    } else {
      WindowEmpty(times[..|times| - 1], lo, hi);
    }
  }

  /** In any window of length `hi - lo`, spaced times number at most `(hi - lo) / gap + 1`. */
  lemma {:induction false} SpacedInWindow(times: seq<nat>, gap: nat, lo: nat, hi: int)
    requires Spaced(times, gap) && lo <= hi
    ensures InWindow(times, lo, hi) * gap <= hi - lo + gap
    decreases |times|
  {
    if times == [] {
    } else {
      var init, last := times[..|times| - 1], times[|times| - 1];
      assert Spaced(init, gap);
      if lo <= last <= hi {
        var cut := last - gap;
        assert forall i :: 0 <= i < |init| ==> init[i] <= cut;
        WindowCut(init, lo, hi, cut);
        if lo <= cut { SpacedInWindow(init, gap, lo, cut); } else { WindowEmpty(init, lo, cut); }
        assert (InWindow(init, lo, hi) + 1) * gap == InWindow(init, lo, hi) * gap + gap;
      } else {
        SpacedInWindow(init, gap, lo, hi);
      }
    }
  }

  lemma GapsFit(n: nat, gap: nat, length: nat)
    requires gap > 0 && n * gap <= length + gap
    ensures n <= length / gap + 1
  {
    if n > 0 {
      MulDistribute(gap, n - 1, 1);
      QuotientAtLeast(length, gap, n - 1);
    }
  }

  /** In any window the limiter grants at most `length / minInterval + 1` submissions. */
  lemma GrantsPerWindow(start: int, minInterval: nat, readings: seq<Reading>, lo: nat, hi: nat)
    requires Clock(readings) && minInterval > 0 && lo <= hi
    ensures InWindow(Grants(start, minInterval, readings), lo, hi) <= (hi - lo) / minInterval + 1
  {
    GrantsAreSpaced(start, minInterval, readings);
    SpacedInWindow(Grants(start, minInterval, readings), minInterval, lo, hi);
    GapsFit(InWindow(Grants(start, minInterval, readings), lo, hi), minInterval, hi - lo);
  }

  // ---- Repeated submissions of one route ----

  const MAX_SUBS_PER_ARB: nat := 5
  const DEDUP_WINDOW: nat := 2_000

  /** The intermediate mints of a route. */
  type RouteKey = seq<Key>

  datatype Seen = Seen(count: nat, first: nat)

  datatype Submission = Submission(key: RouteKey, now: nat)

  /** `retain`: entries younger than the window. */
  function Young(recent: map<RouteKey, Seen>, now: nat): map<RouteKey, Seen> {
    map k | k in recent && SaturatingSub(now, recent[k].first) < DEDUP_WINDOW :: recent[k]
  }

  /** The entry used for a submission: the surviving one, or a new one. */
  function EntryFor(recent: map<RouteKey, Seen>, s: Submission): Seen {
    var young := Young(recent, s.now);
    if s.key in young then young[s.key] else Seen(0, s.now)
  }

  predicate Admits(recent: map<RouteKey, Seen>, s: Submission) {
    EntryFor(recent, s).count < MAX_SUBS_PER_ARB
  }

  function AfterSubmission(recent: map<RouteKey, Seen>, s: Submission): map<RouteKey, Seen> {
    var e := EntryFor(recent, s);
    Young(recent, s.now)[s.key := if Admits(recent, s) then Seen(e.count + 1, e.first) else e]
  }

  class ArbDedup {
    var recent: map<RouteKey, Seen>

    constructor ()
      ensures recent == map[]
    {
      recent := map[];
    }

    method Admit(key: RouteKey, now: nat) returns (admitted: bool)
      modifies this
      ensures admitted == Admits(old(recent), Submission(key, now))
      ensures recent == AfterSubmission(old(recent), Submission(key, now))
    {
      recent := map k | k in recent && SaturatingSub(now, recent[k].first) < DEDUP_WINDOW :: recent[k];
      if key !in recent { recent := recent[key := Seen(0, now)]; }
      var entry := recent[key];
      if entry.count >= MAX_SUBS_PER_ARB { return false; }
      recent := recent[key := Seen(entry.count + 1, entry.first)];
      return true;
    }
  }

  function Recent(subs: seq<Submission>): map<RouteKey, Seen> {
    if subs == [] then map[] else AfterSubmission(Recent(subs[..|subs| - 1]), subs[|subs| - 1])
  }

  /** An admitted submission of the key, with the start of the entry that admitted it. */
  datatype Admission = Admission(time: nat, first: nat)

  function Admissions(subs: seq<Submission>, key: RouteKey): seq<Admission> {
    if subs == [] then [] else
    var init, s := subs[..|subs| - 1], subs[|subs| - 1];
    Admissions(init, key) +
      if s.key == key && Admits(Recent(init), s) then [Admission(s.now, EntryFor(Recent(init), s).first)] else []
  }

  ghost predicate InTimeOrder(subs: seq<Submission>) {
    forall i, j :: 0 <= i < j < |subs| ==> subs[i].now <= subs[j].now
  }

  predicate StartsGroup(a: seq<Admission>, i: nat)
    requires i < |a|
  {
    i == 0 || a[i - 1].first != a[i].first
  }

  ghost predicate OnEntry(a: seq<Admission>) {
    && (forall i :: 0 <= i < |a| ==> a[i].first <= a[i].time < a[i].first + DEDUP_WINDOW)
    && (forall i :: 0 <= i < |a| && StartsGroup(a, i) ==> a[i].time == a[i].first)
  }

  ghost predicate TimesGrow(a: seq<Admission>) {
    forall i, j :: 0 <= i <= j < |a| ==> a[i].time <= a[j].time
  }

  ghost predicate GroupsApart(a: seq<Admission>) {
    forall i, j :: 0 <= i <= j < |a| ==> a[i].first == a[j].first || a[i].first + DEDUP_WINDOW <= a[j].first
  }

  ghost predicate GroupsSmall(a: seq<Admission>) {
    forall i, j :: 0 <= i && j == i + MAX_SUBS_PER_ARB < |a| ==> a[i].first != a[j].first
  }

  /** Admissions come in groups, one per entry: at most five, all within the window from the group's first, and each
      group's first at least a window after the one before. */
  ghost predicate Grouped(a: seq<Admission>) {
    OnEntry(a) && TimesGrow(a) && GroupsApart(a) && GroupsSmall(a)
  }

  ghost predicate LastGroup(a: seq<Admission>, e: Seen) {
    && 1 <= e.count <= MAX_SUBS_PER_ARB && e.count <= |a|
    && (forall i :: |a| - e.count <= i < |a| ==> a[i].first == e.first)
    && (|a| > e.count ==> a[|a| - e.count - 1].first != e.first)
  }

  /** The key's entry counts the last group. */
  ghost predicate EntryMatches(recent: map<RouteKey, Seen>, key: RouteKey, a: seq<Admission>, now: nat) {
    && (a != [] ==> a[|a| - 1].time <= now)
    && if key in recent then LastGroup(a, recent[key]) else a != [] ==> a[|a| - 1].first + DEDUP_WINDOW <= now
  }

  lemma AppendOnEntry(a: seq<Admission>, x: Admission)
    requires OnEntry(a) && x.first <= x.time < x.first + DEDUP_WINDOW
    requires (a == [] || a[|a| - 1].first != x.first) ==> x.time == x.first
    ensures OnEntry(a + [x])
  {
    forall i | 0 <= i < |a| && StartsGroup(a + [x], i) ensures a[i].time == a[i].first {
      assert StartsGroup(a, i);
    }
  }

  lemma AppendTimesGrow(a: seq<Admission>, x: Admission)
    requires TimesGrow(a) && (a != [] ==> a[|a| - 1].time <= x.time)
    ensures TimesGrow(a + [x])
  {
    forall i | 0 <= i < |a| ensures a[i].time <= x.time { assert a[i].time <= a[|a| - 1].time; }
  }

  lemma AppendApart(a: seq<Admission>, x: Admission)
    requires GroupsApart(a)
    requires a != [] ==> a[|a| - 1].first == x.first || a[|a| - 1].first + DEDUP_WINDOW <= x.first
    ensures GroupsApart(a + [x])
  {
    forall i | 0 <= i < |a| ensures a[i].first == x.first || a[i].first + DEDUP_WINDOW <= x.first {
      assert a[i].first == a[|a| - 1].first || a[i].first + DEDUP_WINDOW <= a[|a| - 1].first;
    }
  }

  lemma AppendSmall(a: seq<Admission>, x: Admission)
    requires GroupsSmall(a)
    requires |a| >= MAX_SUBS_PER_ARB ==> a[|a| - MAX_SUBS_PER_ARB].first != x.first
    ensures GroupsSmall(a + [x])
  {
    var b := a + [x];
    forall i, j | 0 <= i && j == i + MAX_SUBS_PER_ARB < |b| ensures b[i].first != b[j].first {
      if j < |a| { assert a[i].first != a[j].first; }
    }
  }

  lemma AppendGrouped(a: seq<Admission>, x: Admission)
    requires Grouped(a) && x.first <= x.time < x.first + DEDUP_WINDOW
    requires (a == [] || a[|a| - 1].first != x.first) ==> x.time == x.first
    requires a != [] ==> a[|a| - 1].time <= x.time
    requires a != [] ==> a[|a| - 1].first == x.first || a[|a| - 1].first + DEDUP_WINDOW <= x.first
    requires |a| >= MAX_SUBS_PER_ARB ==> a[|a| - MAX_SUBS_PER_ARB].first != x.first
    ensures Grouped(a + [x])
  {
    hide OnEntry, TimesGrow, GroupsApart, GroupsSmall;
    AppendOnEntry(a, x);
    AppendTimesGrow(a, x);
    AppendApart(a, x);
    AppendSmall(a, x);
  }

  lemma NothingGrouped()
    ensures Grouped([])
  {
  }

  lemma FirstsInOrder(a: seq<Admission>, i: nat, j: nat)
    requires Grouped(a) && i <= j < |a|
    ensures a[i].first <= a[j].first
  {
  }

  lemma FirstsBefore(a: seq<Admission>, i: nat)
    requires Grouped(a) && i < |a|
    ensures a[i].first <= a[i].time
  {
  }

  /** With fewer than five admissions in the last group, the fifth from the end is of an earlier one. */
  lemma EarlierGroup(a: seq<Admission>, e: Seen)
    requires Grouped(a) && LastGroup(a, e) && e.count < MAX_SUBS_PER_ARB <= |a|
    ensures a[|a| - MAX_SUBS_PER_ARB].first != e.first
  {
    var i, j := |a| - MAX_SUBS_PER_ARB, |a| - e.count - 1;
    assert i <= j && a[j].first != e.first;
    assert a[|a| - 1].first == e.first;
    assert a[i].first == a[j].first || a[i].first + DEDUP_WINDOW <= a[j].first;
    assert a[j].first + DEDUP_WINDOW <= a[|a| - 1].first;
  }

  lemma SubmissionKeepsGroups(recent: map<RouteKey, Seen>, key: RouteKey, a: seq<Admission>, before: nat, s: Submission)
    requires Grouped(a) && EntryMatches(recent, key, a, before) && before <= s.now
    ensures var admitted := s.key == key && Admits(recent, s);
            var b := a + if admitted then [Admission(s.now, EntryFor(recent, s).first)] else [];
            Grouped(b) && EntryMatches(AfterSubmission(recent, s), key, b, s.now)
  {
    hide Grouped;
    var young := Young(recent, s.now);
    if key in recent {
      assert a[|a| - 1].first == recent[key].first;
    }
    if s.key != key || !Admits(recent, s) {
      assert a + [] == a;
    } else {
      var e := EntryFor(recent, s);
      var x := Admission(s.now, e.first);
      if key in young {
        assert young[key] == recent[key] == e;
        FirstsBefore(a, |a| - 1);
        if |a| >= MAX_SUBS_PER_ARB { EarlierGroup(a, e); }
      } else if |a| >= MAX_SUBS_PER_ARB {
        FirstsInOrder(a, |a| - MAX_SUBS_PER_ARB, |a| - 1);
      }
      AppendGrouped(a, x);
      assert LastGroup(a + [x], Seen(e.count + 1, e.first));
    }
  }

  lemma {:induction false} AdmissionsAreGrouped(subs: seq<Submission>, key: RouteKey)
    requires InTimeOrder(subs)
    ensures Grouped(Admissions(subs, key))
    ensures subs != [] ==> EntryMatches(Recent(subs), key, Admissions(subs, key), subs[|subs| - 1].now)
    ensures subs == [] ==> Admissions(subs, key) == []
  {
    hide Grouped;
    if subs == [] {
      assert Grouped([]) by { NothingGrouped(); }
    } else {
      var init, s := subs[..|subs| - 1], subs[|subs| - 1];
      AdmissionsAreGrouped(init, key);
      if init != [] { assert init[|init| - 1].now <= s.now; }
      SubmissionKeepsGroups(Recent(init), key, Admissions(init, key), if init == [] then 0 else init[|init| - 1].now, s);
    }
  }

  lemma RefusedOnEntry(recent: map<RouteKey, Seen>, a: seq<Admission>, before: nat, s: Submission)
    requires Grouped(a) && EntryMatches(recent, s.key, a, before) && before <= s.now
    ensures !Admits(recent, s) <==>
              |a| >= 5 && a[|a| - 5].first == a[|a| - 1].first && s.now < a[|a| - 1].first + 2_000
  {
    hide Grouped;
    if s.key in recent {
      var e := recent[s.key];
      assert a[|a| - 1].first == e.first;
      FirstsBefore(a, |a| - 1);
      if e.count < MAX_SUBS_PER_ARB <= |a| { EarlierGroup(a, e); }
    }
  }

  lemma NoEntryYet(key: RouteKey)
    ensures Grouped([]) && EntryMatches(Recent([]), key, [], 0)
  {
  }

  /** A submission of a route is refused exactly when its last five admissions are of one entry, begun less than two
      seconds before. */
  lemma RefusedExactlyWhen(subs: seq<Submission>, s: Submission)
    requires InTimeOrder(subs + [s])
    ensures var a := Admissions(subs, s.key);
            !Admits(Recent(subs), s) <==>
              |a| >= 5 && a[|a| - 5].first == a[|a| - 1].first && s.now < a[|a| - 1].first + 2_000
  {
    hide Grouped, EntryMatches, Admissions, Recent, Admits;
    var all := subs + [s];
    assert InTimeOrder(subs) by {
      forall i | 0 <= i < |subs| ensures subs[i] == all[i] {
      }
    }
    AdmissionsAreGrouped(subs, s.key);
    if subs == [] {
      NoEntryYet(s.key);
      RefusedOnEntry(Recent(subs), [], 0, s);
    } else {
      assert all[|subs| - 1].now <= all[|subs|].now;
      RefusedOnEntry(Recent(subs), Admissions(subs, s.key), subs[|subs| - 1].now, s);
    }
  }

  /** Ten admissions in a row of one route always span at least the window. */
  lemma TenSpanWindow(a: seq<Admission>, i: nat)
    requires Grouped(a) && i + 9 < |a|
    ensures a[i].time + DEDUP_WINDOW <= a[i + 9].time
  {
    assert a[i].first != a[i + 5].first;
    if a[i].time > a[i].first {
      assert !StartsGroup(a, i);
      var k := i - 1;
      assert a[k].first == a[i].first;
      assert a[k].first != a[k + 5].first;
      assert a[i + 4].first != a[i + 9].first;
    }
  }

  /** One route is submitted at most nine times in any half-open window of two seconds, and never more than five
      times on one entry. */
  lemma NinePerWindow(subs: seq<Submission>, key: RouteKey, i: nat, j: nat)
    requires InTimeOrder(subs)
    requires i <= j < |Admissions(subs, key)|
    requires Admissions(subs, key)[j].time < Admissions(subs, key)[i].time + DEDUP_WINDOW
    ensures j - i + 1 <= 9
  {
    AdmissionsAreGrouped(subs, key);
    var a := Admissions(subs, key);
    if j - i >= 9 {
      TenSpanWindow(a, i);
    }
  }

  function NineSubmissions(): seq<Submission> {
    seq(10, i => Submission([], if i == 0 then 0 else if i < 5 then 1_999 else 2_000))
  }

  lemma OnlyEntry(e: Seen, now: nat)
    requires e.first <= now
    ensures var s, young := Submission([], now), e.first <= now < e.first + DEDUP_WINDOW;
            var used := if young then e else Seen(0, now);
            && EntryFor(map[[] := e], s) == used
            && (used.count < MAX_SUBS_PER_ARB ==> AfterSubmission(map[[] := e], s) == map[[] := Seen(used.count + 1, used.first)])
  {
    var none: RouteKey := [];
    var recent: map<RouteKey, Seen> := map[none := e];
    if now - e.first < DEDUP_WINDOW { assert Young(recent, now) == recent; } else { assert Young(recent, now) == map[]; }
  }

  lemma FirstEntry(now: nat)
    ensures EntryFor(map[], Submission([], now)) == Seen(0, now)
    ensures AfterSubmission(map[], Submission([], now)) == map[[] := Seen(1, now)]
  {
    assert Young(map[], now) == map[];
  }

  lemma {:induction false} AdmittedSoFar(n: nat)
    requires 1 <= n <= 10
    ensures var subs := NineSubmissions()[..n];
            var first, count := if n <= 5 then 0 else 2_000, if n <= 5 then n else n - 5;
            && Recent(subs) == map[[] := Seen(count, first)]
            && |Admissions(subs, [])| == n
            && forall i :: 0 <= i < n ==> Admissions(subs, [])[i].time == NineSubmissions()[i].now
    ensures NineSubmissions()[..10] == NineSubmissions()
  {
    hide AfterSubmission, EntryFor;
    var subs := NineSubmissions()[..n];
    assert subs[..n - 1] == NineSubmissions()[..n - 1];
    if n == 1 {
      assert subs[..0] == [];
      FirstEntry(0);
    } else {
      AdmittedSoFar(n - 1);
      OnlyEntry(if n <= 6 then Seen(n - 1, 0) else Seen(n - 6, 2_000), subs[n - 1].now);
    }
  }

  /** The bound is reached: one admission at 0, four at 1999 and five at 2000 put nine into the window that starts
      at 1999. */
  lemma NineAreAdmitted()
    ensures var a := Admissions(NineSubmissions(), []);
            && |a| == 10 && a[1].time == 1_999 && a[9].time == 2_000
  {
    var subs := NineSubmissions();
    AdmittedSoFar(10);
  }

  // ---- Pools already processed in a slot ----

  const EVICT_ABOVE: nat := 10_000
  const KEPT_SLOTS: nat := 10

  datatype Change = Change(pool: Key, slot: nat)

  predicate Skips(recent: map<Key, nat>, c: Change) {
    c.pool in recent && recent[c.pool] == c.slot
  }

  function AfterChange(recent: map<Key, nat>, c: Change): map<Key, nat> {
    if Skips(recent, c) then recent else
    var updated := recent[c.pool := c.slot];
    if |updated| > EVICT_ABOVE then map p | p in updated && SaturatingSub(c.slot, updated[p]) < KEPT_SLOTS :: updated[p]
    else updated
  }

  class PoolDedup {
    var recent: map<Key, nat>

    constructor ()
      ensures recent == map[]
    {
      recent := map[];
    }

    method Process(c: Change) returns (processed: bool)
      modifies this
      ensures processed == !Skips(old(recent), c)
      ensures recent == AfterChange(old(recent), c)
    {
      if c.pool in recent && recent[c.pool] == c.slot { return false; }
      recent := recent[c.pool := c.slot];
      if |recent| > EVICT_ABOVE {
        recent := map p | p in recent && SaturatingSub(c.slot, recent[p]) < KEPT_SLOTS :: recent[p];
      }
      return true;
    }
  }

  function RecentPools(changes: seq<Change>): map<Key, nat> {
    if changes == [] then map[] else AfterChange(RecentPools(changes[..|changes| - 1]), changes[|changes| - 1])
  }

  /** The `i`-th change is processed, not skipped. */
  predicate Processed(changes: seq<Change>, i: nat)
    requires i < |changes|
  {
    !Skips(RecentPools(changes[..i]), changes[i])
  }

  ghost predicate SlotsNeverFall(changes: seq<Change>) {
    forall i, j :: 0 <= i < j < |changes| ==> changes[i].slot <= changes[j].slot
  }

  /** Whatever was processed in the latest slot is still remembered, across evictions. */
  lemma {:induction false} LatestSlotRemembered(changes: seq<Change>, i: nat)
    requires SlotsNeverFall(changes) && i < |changes| && changes[i].slot == changes[|changes| - 1].slot
    ensures Skips(RecentPools(changes), changes[i])
    decreases |changes|
  {
    var init, last := changes[..|changes| - 1], changes[|changes| - 1];
    if i == |init| {
    } else {
      assert init[i].slot <= init[|init| - 1].slot <= last.slot;
      LatestSlotRemembered(init, i);
    }
  }

  /** After `x` is taken in, an entry for `c` is gone: another slot of its pool has replaced it, or `x` sets off an
      eviction that finds it too old. */
  predicate Forgets(recent: map<Key, nat>, x: Change, c: Change) {
    || (x.pool == c.pool && x.slot != c.slot)
    || (!Skips(recent, x) && |recent[x.pool := x.slot]| > EVICT_ABOVE && SaturatingSub(x.slot, c.slot) >= KEPT_SLOTS)
  }

  lemma ChangeRemembers(recent: map<Key, nat>, x: Change, c: Change)
    ensures Skips(AfterChange(recent, x), c) <==> x == c || (Skips(recent, c) && !Forgets(recent, x, c))
  {
  }

  /** Change `i` was this one, and nothing since has made the map forget it. */
  ghost predicate RememberedSince(changes: seq<Change>, c: Change, i: nat)
    requires i < |changes|
  {
    changes[i] == c && forall k :: i < k < |changes| ==> !Forgets(RecentPools(changes[..k]), changes[k], c)
  }

  lemma NothingSkipped(c: Change)
    ensures !Skips(map[], c)
  {
  }

  lemma RememberedOneMore(changes: seq<Change>, c: Change, i: nat)
    requires i + 1 < |changes|
    ensures var init, x := changes[..|changes| - 1], changes[|changes| - 1];
            RememberedSince(changes, c, i) <==> RememberedSince(init, c, i) && !Forgets(RecentPools(init), x, c)
  {
    hide Forgets, RecentPools;
    var init := changes[..|changes| - 1];
    forall k | 0 <= k <= |init| ensures changes[..k] == init[..k] {
    }
    assert init[..|init|] == init;
  }

  lemma {:induction false} SkippedExactlyWhen(changes: seq<Change>, c: Change)
    ensures Skips(RecentPools(changes), c) <==> exists i :: 0 <= i < |changes| && RememberedSince(changes, c, i)
  {
    hide AfterChange, Skips, Forgets;
    if changes == [] {
      assert !Skips(RecentPools([]), c) by { NothingSkipped(c); }
    } else {
      var init, x := changes[..|changes| - 1], changes[|changes| - 1];
      SkippedExactlyWhen(init, c);
      ChangeRemembers(RecentPools(init), x, c);
      forall i | 0 <= i < |init|
        ensures RememberedSince(changes, c, i) <==> RememberedSince(init, c, i) && !Forgets(RecentPools(init), x, c)
      {
        RememberedOneMore(changes, c, i);
      }
      assert x == c ==> RememberedSince(changes, c, |init|);
    }
  }

  /** A change is processed exactly when it has not come up before, or since it last did its pool appeared at another
      slot or an eviction dropped its entry. */
  lemma ProcessedExactlyWhen(changes: seq<Change>, j: nat)
    requires j < |changes|
    ensures Processed(changes, j) <==> !exists i :: 0 <= i < j && RememberedSince(changes[..j], changes[j], i)
  {
    SkippedExactlyWhen(changes[..j], changes[j]);
  }

  /** With slots that never fall, no (pool, slot) is processed twice, even when old entries are evicted between. */
  lemma NoPoolTwiceInASlot(changes: seq<Change>, i: nat, j: nat)
    requires SlotsNeverFall(changes) && i < j < |changes| && changes[i] == changes[j]
    ensures !Processed(changes, j)
  {
    var before := changes[..j];
    assert before[i].slot <= before[j - 1].slot <= changes[j].slot;
    LatestSlotRemembered(before, i);
  }

  /** If slots can fall it is: the pool's one remembered slot has been overwritten. */
  lemma ProcessedTwiceWhenSlotsFall(pool: Key)
    ensures var changes := [Change(pool, 5), Change(pool, 6), Change(pool, 5)];
            Processed(changes, 0) && Processed(changes, 1) && Processed(changes, 2)
  {
    var changes := [Change(pool, 5), Change(pool, 6), Change(pool, 5)];
    assert changes[..0] == [] && changes[..1][..0] == [] && changes[..2][..1] == changes[..1];
    assert RecentPools(changes[..1]) == map[pool := 5];
    assert RecentPools(changes[..2]) == map[pool := 6];
  }
}
