/** The pool cache with its two secondary indexes: mint to pools, and unordered mint pair to pools. */
module StateCache {
  import opened Address
  import opened Machine
  import opened Pool

  const EVICTION_AGE: nat := 600

  datatype Entry = Entry(state: PoolState, lastUpdated: nat)

  type PairKey = (Key, Key)

  /** The cache's contents as a value. */
  datatype Contents = Contents(pools: map<Key, Entry>, tokens: map<Key, set<Key>>, pairs: map<PairKey, seq<Key>>)

  function NormalizePair(a: Key, b: Key): PairKey {
    if a <= b then (a, b) else (b, a)
  }

  function PairOf(p: PoolState): PairKey {
    NormalizePair(p.mintA, p.mintB)
  }

  // ---- Lookups, and the full scans they stand for ----

  function StateLookup(c: Contents, pool: Key): Option<PoolState> {
    if pool in c.pools then Some(c.pools[pool].state) else None
  }

  function TokenLookup(c: Contents, mint: Key): set<Key> {
    if mint in c.tokens then c.tokens[mint] else {}
  }

  function PairLookup(c: Contents, a: Key, b: Key): seq<Key> {
    var k := NormalizePair(a, b);
    if k in c.pairs then c.pairs[k] else []
  }

  function TokenScan(c: Contents, mint: Key): set<Key> {
    set a | a in c.pools && (c.pools[a].state.mintA == mint || c.pools[a].state.mintB == mint)
  }

  predicate Trades(p: PoolState, a: Key, b: Key) {
    (p.mintA == a && p.mintB == b) || (p.mintA == b && p.mintB == a)
  }

  function PairScan(c: Contents, a: Key, b: Key): set<Key> {
    set p | p in c.pools && Trades(c.pools[p].state, a, b)
  }

  ghost predicate NoDuplicates(s: seq<Key>) {
    forall i, j :: 0 <= i < j < |s| ==> s[i] != s[j]
  }

  function Elements(s: seq<Key>): set<Key> {
    set x | x in s
  }

  /** Both indexes answer exactly what a scan of the pools would, without duplicates and without empty buckets. */
  ghost predicate Agrees(c: Contents) {
    && (forall m :: TokenLookup(c, m) == TokenScan(c, m))
    && (forall a, b :: Elements(PairLookup(c, a, b)) == PairScan(c, a, b))
    && (forall k :: k in c.pairs ==> NoDuplicates(c.pairs[k]) && c.pairs[k] != [])
    && (forall m :: m in c.tokens ==> c.tokens[m] != {})
  }

  lemma TradesIsPairKey(p: PoolState, a: Key, b: Key)
    ensures Trades(p, a, b) <==> PairOf(p) == NormalizePair(a, b)
  {
  }

  /** A pair's pools do not depend on the order the mints are named in. */
  lemma PairLookupSymmetric(c: Contents, a: Key, b: Key)
    ensures PairLookup(c, a, b) == PairLookup(c, b, a)
  {
    assert NormalizePair(a, b) == NormalizePair(b, a);
  }

  // ---- Upsert ----

  function AddToken(tokens: map<Key, set<Key>>, mint: Key, pool: Key): map<Key, set<Key>> {
    tokens[mint := (if mint in tokens then tokens[mint] else {}) + {pool}]
  }

  function AddPair(pairs: map<PairKey, seq<Key>>, k: PairKey, pool: Key): map<PairKey, seq<Key>> {
    if k !in pairs then pairs[k := [pool]]
    else if pool in pairs[k] then pairs
    else pairs[k := pairs[k] + [pool]]
  }

  function AfterUpsert(c: Contents, pool: Key, state: PoolState, now: nat): Contents {
    Contents(c.pools[pool := Entry(state, now)],
             AddToken(AddToken(c.tokens, state.mintA, pool), state.mintB, pool),
             AddPair(c.pairs, PairOf(state), pool))
  }

  lemma UpsertTokenLookup(c: Contents, pool: Key, state: PoolState, now: nat, m: Key)
    ensures TokenLookup(AfterUpsert(c, pool, state, now), m)
         == TokenLookup(c, m) + (if m == state.mintA || m == state.mintB then {pool} else {})
  {
  }

  lemma UpsertPairLookup(c: Contents, pool: Key, state: PoolState, now: nat, a: Key, b: Key)
    ensures Elements(PairLookup(AfterUpsert(c, pool, state, now), a, b))
         == Elements(PairLookup(c, a, b)) + (if Trades(state, a, b) then {pool} else {})
  {
    TradesIsPairKey(state, a, b);
    var k := PairOf(state);
    if k in c.pairs && pool !in c.pairs[k] {
      assert Elements(c.pairs[k] + [pool]) == Elements(c.pairs[k]) + {pool};
    }
  }

  lemma SamePairSameTokens(p: PoolState, q: PoolState, m: Key)
    requires PairOf(p) == PairOf(q)
    ensures p.mintA == m || p.mintB == m <==> q.mintA == m || q.mintB == m
  {
  }

  /** An upsert keeps the indexes in agreement exactly when the pool is new or keeps its pair of mints: nothing ever
      removes an address from the bucket of a mint it used to have. */
  lemma UpsertAgreesExactlyWhen(c: Contents, pool: Key, state: PoolState, now: nat)
    requires Agrees(c)
    ensures Agrees(AfterUpsert(c, pool, state, now)) <==>
              pool !in c.pools || PairOf(c.pools[pool].state) == PairOf(state)
  {
    var d := AfterUpsert(c, pool, state, now);
    if pool in c.pools && PairOf(c.pools[pool].state) != PairOf(state) {
      var was := c.pools[pool].state;
      UpsertPairLookup(c, pool, state, now, was.mintA, was.mintB);
      TradesIsPairKey(state, was.mintA, was.mintB);
      assert pool in PairScan(c, was.mintA, was.mintB);
      assert pool in Elements(PairLookup(d, was.mintA, was.mintB));
      assert pool !in PairScan(d, was.mintA, was.mintB);
    } else {
      forall m ensures TokenLookup(d, m) == TokenScan(d, m) {
        UpsertTokenLookup(c, pool, state, now, m);
        if pool in c.pools { SamePairSameTokens(c.pools[pool].state, state, m); }
      }
      forall a, b ensures Elements(PairLookup(d, a, b)) == PairScan(d, a, b) {
        UpsertPairLookup(c, pool, state, now, a, b);
        TradesIsPairKey(state, a, b);
        if pool in c.pools { TradesIsPairKey(c.pools[pool].state, a, b); }
      }
    }
  }

  // ---- Eviction ----

  predicate IsStale(e: Entry, now: nat) {
    SaturatingSub(now, e.lastUpdated) >= EVICTION_AGE
  }

  function StalePools(c: Contents, now: nat): set<Key> {
    set a | a in c.pools && IsStale(c.pools[a], now)
  }

  /** `removed` holds the (bucket, pool) removals made so far; a bucket goes when a removal leaves it empty. */
  function GoneAt<B(==)>(removed: set<(B, Key)>, bucket: B): set<Key> {
    set r | r in removed && r.0 == bucket :: r.1
  }

  function TokensWithout(tokens: map<Key, set<Key>>, removed: set<(Key, Key)>): map<Key, set<Key>> {
    map m | m in tokens && (GoneAt(removed, m) == {} || tokens[m] - GoneAt(removed, m) != {})
      :: tokens[m] - GoneAt(removed, m)
  }

  function Keep(s: seq<Key>, gone: set<Key>): seq<Key> {
    if s == [] then [] else
    (if s[0] in gone then [] else [s[0]]) + Keep(s[1..], gone)
  }

  function PairsWithout(pairs: map<PairKey, seq<Key>>, removed: set<(PairKey, Key)>): map<PairKey, seq<Key>> {
    map k | k in pairs && (GoneAt(removed, k) == {} || Keep(pairs[k], GoneAt(removed, k)) != [])
      :: Keep(pairs[k], GoneAt(removed, k))
  }

  function TokenRemovals(c: Contents, stale: set<Key>): set<(Key, Key)>
    requires stale <= c.pools.Keys
  {
    (set a | a in stale :: (c.pools[a].state.mintA, a)) + (set a | a in stale :: (c.pools[a].state.mintB, a))
  }

  function PairRemovals(c: Contents, stale: set<Key>): set<(PairKey, Key)>
    requires stale <= c.pools.Keys
  {
    set a | a in stale :: (PairOf(c.pools[a].state), a)
  }

  function AfterEvict(c: Contents, now: nat): Contents {
    var stale := StalePools(c, now);
    Contents(c.pools - stale, TokensWithout(c.tokens, TokenRemovals(c, stale)), PairsWithout(c.pairs, PairRemovals(c, stale)))
  }

  lemma {:induction false} KeepHolds(s: seq<Key>, gone: set<Key>)
    ensures Elements(Keep(s, gone)) == Elements(s) - gone
    ensures NoDuplicates(s) ==> NoDuplicates(Keep(s, gone))
  {
    if s == [] {
    } else {
      KeepHolds(s[1..], gone);
      assert s == [s[0]] + s[1..];
      var rest := Keep(s[1..], gone);
      forall x ensures x in Elements(Keep(s, gone)) <==> x in Elements(s) - gone {
        assert x in rest <==> x in Elements(rest);
      }
      assert s[0] in rest ==> s[0] in Elements(rest);
    }
  }

  lemma {:induction false} KeepMore(s: seq<Key>, gone: set<Key>, x: Key)
    ensures Keep(Keep(s, gone), {x}) == Keep(s, gone + {x})
  {
    if s == [] {
    } else {
      KeepMore(s[1..], gone, x);
      var rest := Keep(s[1..], gone);
      if s[0] in gone {
        assert Keep(s, gone) == rest;
        assert Keep(s, gone + {x}) == Keep(s[1..], gone + {x});
      } else {
        assert Keep(s, gone) == [s[0]] + rest;
        assert ([s[0]] + rest)[1..] == rest;
        assert Keep([s[0]] + rest, {x}) == (if s[0] == x then [] else [s[0]]) + Keep(rest, {x});
      }
    }
  }

  lemma {:induction false} KeepAll(s: seq<Key>)
    ensures Keep(s, {}) == s
  {
    if s == [] {
    } else {
      KeepAll(s[1..]);
    }
  }

  lemma EvictPairLookup(c: Contents, now: nat, a: Key, b: Key)
    requires Agrees(c)
    ensures Elements(PairLookup(AfterEvict(c, now), a, b)) == PairScan(AfterEvict(c, now), a, b)
  {
    var d, stale, k := AfterEvict(c, now), StalePools(c, now), NormalizePair(a, b);
    var gone := GoneAt(PairRemovals(c, stale), k);
    forall p ensures p in gone <==> p in stale && p in PairScan(c, a, b) {
      assert p in gone <==> (k, p) in PairRemovals(c, stale);
      if p in c.pools { TradesIsPairKey(c.pools[p].state, a, b); }
    }
    assert Elements(PairLookup(c, a, b)) == PairScan(c, a, b);
    assert PairScan(d, a, b) == PairScan(c, a, b) - stale;
    if k in c.pairs {
      KeepHolds(c.pairs[k], gone);
    }
  }

  /** Eviction keeps the indexes in agreement. */
  lemma EvictAgrees(c: Contents, now: nat)
    requires Agrees(c)
    ensures Agrees(AfterEvict(c, now))
  {
    var d, stale := AfterEvict(c, now), StalePools(c, now);
    forall m ensures TokenLookup(d, m) == TokenScan(d, m) {
      assert GoneAt(TokenRemovals(c, stale), m) == stale * TokenScan(c, m) by {
        forall a ensures a in GoneAt(TokenRemovals(c, stale), m) <==> a in stale * TokenScan(c, m) {
          assert a in GoneAt(TokenRemovals(c, stale), m) <==> (m, a) in TokenRemovals(c, stale);
        }
      }
      assert TokenLookup(c, m) == TokenScan(c, m);
      assert TokenScan(d, m) == TokenScan(c, m) - stale;
    }
    forall a, b ensures Elements(PairLookup(d, a, b)) == PairScan(d, a, b) {
      EvictPairLookup(c, now, a, b);
    }
    forall k | k in d.pairs ensures NoDuplicates(d.pairs[k]) && d.pairs[k] != [] {
      KeepHolds(c.pairs[k], GoneAt(PairRemovals(c, stale), k));
      if GoneAt(PairRemovals(c, stale), k) == {} { KeepAll(c.pairs[k]); }
    }
  }

  // ---- Runs of the cache ----

  datatype Operation = Upsert(pool: Key, state: PoolState, now: nat) | Evict(now: nat)

  function Run(ops: seq<Operation>): Contents {
    if ops == [] then Contents(map[], map[], map[]) else
    var before := Run(ops[..|ops| - 1]);
    match ops[|ops| - 1]
    case Upsert(pool, state, now) => AfterUpsert(before, pool, state, now)
    case Evict(now) => AfterEvict(before, now)
  }

  /** If operation `i` is an upsert, its pool is not cached then, or is cached with the same pair of mints. */
  predicate KeepsPair(ops: seq<Operation>, i: nat)
    requires i < |ops|
  {
    var before := Run(ops[..i]).pools;
    ops[i].Upsert? && ops[i].pool in before ==> PairOf(before[ops[i].pool].state) == PairOf(ops[i].state)
  }

  lemma StepAgreesExactlyWhen(ops: seq<Operation>, i: nat)
    requires i < |ops| && Agrees(Run(ops[..i]))
    ensures Agrees(Run(ops[..i + 1])) <==> KeepsPair(ops, i)
  {
    hide Agrees, AfterUpsert, AfterEvict;
    assert ops[..i + 1][..i] == ops[..i];
    match ops[i]
    case Upsert(pool, state, now) => UpsertAgreesExactlyWhen(Run(ops[..i]), pool, state, now);
    case Evict(now) => EvictAgrees(Run(ops[..i]), now);
  }

  lemma {:induction false} PrefixAgrees(ops: seq<Operation>, n: nat)
    requires n <= |ops| && forall i :: 0 <= i < n ==> KeepsPair(ops, i)
    ensures Agrees(Run(ops[..n]))
  {
    if n == 0 {
    } else {
      PrefixAgrees(ops, n - 1);
      StepAgreesExactlyWhen(ops, n - 1);
    }
  }

  /** A run of upserts and evictions keeps the indexes in agreement with a scan throughout exactly when every upsert is
      of an address not cached at the time, or cached with the same pair of mints. */
  lemma RunAgreesExactlyWhen(ops: seq<Operation>)
    ensures (forall n :: 0 <= n <= |ops| ==> Agrees(Run(ops[..n]))) <==> (forall i :: 0 <= i < |ops| ==> KeepsPair(ops, i))
  {
    hide Agrees, KeepsPair;
    if forall i :: 0 <= i < |ops| ==> KeepsPair(ops, i) {
      forall n | 0 <= n <= |ops| ensures Agrees(Run(ops[..n])) { PrefixAgrees(ops, n); }
    } else if forall n :: 0 <= n <= |ops| ==> Agrees(Run(ops[..n])) {
      forall i | 0 <= i < |ops| ensures KeepsPair(ops, i) {
        StepAgreesExactlyWhen(ops, i);
        assert Agrees(Run(ops[..i + 1]));
      }
    }
  }

  // ---- The states of the pools, over whole runs ----

  /** The operation neither writes the pool nor evicts it, if it was written at `written`. */
  predicate SparesWrite(op: Operation, pool: Key, written: nat) {
    match op
    case Upsert(other, _, _) => other != pool
    case Evict(now) => now < written + 600
  }

  /** Operation `i` is the last upsert of the pool, and no eviction since found it ten minutes old. */
  ghost predicate LastWrites(ops: seq<Operation>, pool: Key, state: PoolState, i: nat)
    requires i < |ops|
  {
    && ops[i].Upsert? && ops[i].pool == pool && ops[i].state == state
    && forall k :: i < k < |ops| ==> SparesWrite(ops[k], pool, ops[i].now)
  }

  /** What one operation does to one pool's entry. */
  lemma EntryAfter(before: Contents, op: Operation, pool: Key)
    ensures var after := match op case Upsert(p, state, now) => AfterUpsert(before, p, state, now) case Evict(now) => AfterEvict(before, now);
            && (op.Upsert? && op.pool == pool ==> pool in after.pools && after.pools[pool] == Entry(op.state, op.now))
            && (op.Upsert? && op.pool != pool ==>
                  (pool in after.pools <==> pool in before.pools)
                  && (pool in before.pools ==> after.pools[pool] == before.pools[pool]))
            && (op.Evict? ==>
                  (pool in after.pools <==> pool in before.pools && op.now < before.pools[pool].lastUpdated + 600)
                  && (pool in after.pools ==> after.pools[pool] == before.pools[pool]))
  {
    hide AddToken, AddPair, TokensWithout, PairsWithout;
  }

  lemma LastWritesNext(ops: seq<Operation>, pool: Key, state: PoolState, i: nat)
    requires i + 1 < |ops|
    ensures LastWrites(ops, pool, state, i) <==>
              LastWrites(ops[..|ops| - 1], pool, state, i) && SparesWrite(ops[|ops| - 1], pool, ops[i].now)
  {
    var init := ops[..|ops| - 1];
    assert forall k :: 0 <= k < |init| ==> init[k] == ops[k];
  }

  lemma LastIsWritten(ops: seq<Operation>, pool: Key, state: PoolState)
    requires ops != []
    ensures var last := ops[|ops| - 1];
            LastWrites(ops, pool, state, |ops| - 1) <==> last.Upsert? && last.pool == pool && last.state == state
  {
  }

  lemma SparesUnfolds(op: Operation, pool: Key, written: nat)
    ensures SparesWrite(op, pool, written) <==> if op.Upsert? then op.pool != pool else op.now < written + 600
  {
  }

  /** After any run a pool has a state exactly if it was upserted with it, not upserted again since, and not older than
      ten minutes at any eviction since; the entry carries the time of that upsert. */
  lemma {:induction false} EntryIsLastWritten(ops: seq<Operation>, pool: Key, e: Entry)
    ensures pool in Run(ops).pools && Run(ops).pools[pool] == e <==>
              exists i :: 0 <= i < |ops| && ops[i].Upsert? && ops[i].now == e.lastUpdated && LastWrites(ops, pool, e.state, i)
  {
    hide AfterUpsert, AfterEvict, LastWrites, SparesWrite;
    if ops == [] {
    } else {
      var n := |ops| - 1;
      var init, last := ops[..n], ops[n];
      EntryIsLastWritten(init, pool, e);
      EntryAfter(Run(init), last, pool);
      forall i | 0 <= i < n
        ensures LastWrites(ops, pool, e.state, i) <==> LastWrites(init, pool, e.state, i) && SparesWrite(last, pool, ops[i].now)
      {
        LastWritesNext(ops, pool, e.state, i);
      }
      LastIsWritten(ops, pool, e.state);
      SparesUnfolds(last, pool, e.lastUpdated);
      assert forall i :: 0 <= i < n ==> init[i] == ops[i];
    }
  }

  lemma LastWritesIsUpsert(ops: seq<Operation>, pool: Key, state: PoolState, i: nat)
    requires i < |ops| && LastWrites(ops, pool, state, i)
    ensures ops[i].Upsert?
  {
  }

  /** So a lookup after any run answers the last state written, and nothing exactly if there is none. */
  lemma LookupIsLastWritten(ops: seq<Operation>, pool: Key, state: PoolState)
    ensures StateLookup(Run(ops), pool) == Some(state) <==> exists i :: 0 <= i < |ops| && LastWrites(ops, pool, state, i)
  {
    hide LastWrites, Run;
    if StateLookup(Run(ops), pool) == Some(state) {
      EntryIsLastWritten(ops, pool, Run(ops).pools[pool]);
    }
    if i :| 0 <= i < |ops| && LastWrites(ops, pool, state, i) {
      LastWritesIsUpsert(ops, pool, state, i);
      EntryIsLastWritten(ops, pool, Entry(state, ops[i].now));
    }
  }

  // ---- The cache itself ----

  lemma GoneAtAdd<B>(removed: set<(B, Key)>, bucket: B, pool: Key, at: B)
    ensures GoneAt(removed + {(bucket, pool)}, at)
         == if at == bucket then GoneAt(removed, at) + {pool} else GoneAt(removed, at)
  {
    forall x ensures x in GoneAt(removed + {(bucket, pool)}, at) <==>
        x in GoneAt(removed, at) || (at == bucket && x == pool) {
      assert x in GoneAt(removed, at) <==> (at, x) in removed;
      assert x in GoneAt(removed + {(bucket, pool)}, at) <==> (at, x) in removed + {(bucket, pool)};
    }
  }

  lemma NothingRemoved(c: Contents)
    ensures TokensWithout(c.tokens, {}) == c.tokens && PairsWithout(c.pairs, {}) == c.pairs
  {
    var noTokens: set<(Key, Key)>, noPairs: set<(PairKey, Key)> := {}, {};
    assert forall m :: GoneAt(noTokens, m) == {};
    assert forall k :: GoneAt(noPairs, k) == {};
    forall m | m in c.tokens ensures c.tokens[m] - GoneAt(noTokens, m) == c.tokens[m] {
    }
    assert TokensWithout(c.tokens, noTokens) == c.tokens;
    forall k | k in c.pairs ensures Keep(c.pairs[k], {}) == c.pairs[k] {
      KeepAll(c.pairs[k]);
    }
  }

  /** Taking one more pool out of one bucket, dropping the bucket when it empties. */
  function DropToken(tokens: map<Key, set<Key>>, mint: Key, pool: Key): map<Key, set<Key>> {
    if mint !in tokens then tokens
    else if tokens[mint] - {pool} == {} then tokens - {mint} else tokens[mint := tokens[mint] - {pool}]
  }

  lemma TokenDropped(tokens: map<Key, set<Key>>, removed: set<(Key, Key)>, mint: Key, pool: Key)
    ensures TokensWithout(tokens, removed + {(mint, pool)}) == DropToken(TokensWithout(tokens, removed), mint, pool)
  {
    var after := removed + {(mint, pool)};
    var left, right := TokensWithout(tokens, after), DropToken(TokensWithout(tokens, removed), mint, pool);
    forall m ensures (m in left <==> m in right) && (m in left ==> left[m] == right[m]) {
      GoneAtAdd(removed, mint, pool, m);
      if m == mint && m in tokens {
        assert tokens[m] - GoneAt(after, m) == tokens[m] - GoneAt(removed, m) - {pool};
      }
    }
  }

  function DropPair(pairs: map<PairKey, seq<Key>>, k: PairKey, pool: Key): map<PairKey, seq<Key>> {
    if k !in pairs then pairs
    else if Keep(pairs[k], {pool}) == [] then pairs - {k} else pairs[k := Keep(pairs[k], {pool})]
  }

  lemma PairDropped(pairs: map<PairKey, seq<Key>>, removed: set<(PairKey, Key)>, k: PairKey, pool: Key)
    ensures PairsWithout(pairs, removed + {(k, pool)}) == DropPair(PairsWithout(pairs, removed), k, pool)
  {
    var after := removed + {(k, pool)};
    var left, right := PairsWithout(pairs, after), DropPair(PairsWithout(pairs, removed), k, pool);
    forall j ensures (j in left <==> j in right) && (j in left ==> left[j] == right[j]) {
      GoneAtAdd(removed, k, pool, j);
      if j == k && j in pairs {
        KeepMore(pairs[j], GoneAt(removed, j), pool);
        assert pool in GoneAt(after, j);
      }
    }
  }

  lemma EmptyOrInhabited(pools: set<Key>)
    ensures pools == {} || exists p :: p in pools
  {
    if forall p :: p !in pools {
      assert pools == {};
    }
  }

  /** Some pool of the set: the maps iterate in no particular order. */
  method AnyOf(pools: set<Key>) returns (pool: Key)
    requires pools != {}
    ensures pool in pools
  {
    EmptyOrInhabited(pools);
    pool :| pool in pools;
  }

  class Cache {
    var pools: map<Key, Entry>
    var tokenToPools: map<Key, set<Key>>
    var pairToPools: map<PairKey, seq<Key>>

    ghost function View(): Contents
      reads this
    {
      Contents(pools, tokenToPools, pairToPools)
    }

    constructor ()
      ensures View() == Run([])
    {
      pools, tokenToPools, pairToPools := map[], map[], map[];
    }

    method GetAny(pool: Key) returns (state: Option<PoolState>)
      ensures state == StateLookup(View(), pool)
    {
      state := if pool in pools then Some(pools[pool].state) else None;
    }

    method Upsert(pool: Key, state: PoolState, now: nat)
      modifies this
      ensures View() == AfterUpsert(old(View()), pool, state, now)
    {
      var mints := [state.mintA, state.mintB];
      for i := 0 to 2
        invariant pools == old(pools) && pairToPools == old(pairToPools)
        invariant tokenToPools == match i
                                  case 0 => old(tokenToPools)
                                  case 1 => AddToken(old(tokenToPools), mints[0], pool)
                                  case _ => AddToken(AddToken(old(tokenToPools), mints[0], pool), mints[1], pool)
      {
        var bucket := if mints[i] in tokenToPools then tokenToPools[mints[i]] else {};
        tokenToPools := tokenToPools[mints[i] := bucket + {pool}];
      }
      var k := NormalizePair(state.mintA, state.mintB);
      if k in pairToPools {
        if pool !in pairToPools[k] {
          pairToPools := pairToPools[k := pairToPools[k] + [pool]];
        }
      } else {
        pairToPools := pairToPools[k := [pool]];
      }
      pools := pools[pool := Entry(state, now)];
    }

    /** One bucket of the token index loses one pool, and goes when that leaves it empty. */
    method RemoveToken(mint: Key, pool: Key, ghost tokens: map<Key, set<Key>>, ghost removed: set<(Key, Key)>)
      requires tokenToPools == TokensWithout(tokens, removed)
      modifies this`tokenToPools
      ensures tokenToPools == TokensWithout(tokens, removed + {(mint, pool)})
    {
      TokenDropped(tokens, removed, mint, pool);
      if mint in tokenToPools {
        var bucket := tokenToPools[mint] - {pool};
        if bucket == {} {
          tokenToPools := tokenToPools - {mint};
        } else {
          tokenToPools := tokenToPools[mint := bucket];
        }
      }
    }

    method RemovePair(k: PairKey, pool: Key, ghost pairs: map<PairKey, seq<Key>>, ghost removed: set<(PairKey, Key)>)
      requires pairToPools == PairsWithout(pairs, removed)
      modifies this`pairToPools
      ensures pairToPools == PairsWithout(pairs, removed + {(k, pool)})
    {
      PairDropped(pairs, removed, k, pool);
      if k in pairToPools {
        var bucket := Keep(pairToPools[k], {pool});
        if bucket == [] {
          pairToPools := pairToPools - {k};
        } else {
          pairToPools := pairToPools[k := bucket];
        }
      }
    }

    /** Drops the pools not updated for ten minutes and takes each out of its buckets, in any order. */
    method EvictStale(now: nat)
      modifies this
      ensures View() == AfterEvict(old(View()), now)
    {
      ghost var before := View();
      var stale := set a | a in pools && IsStale(pools[a], now);
      var gone := map a | a in stale :: pools[a];
      pools := pools - stale;
      var todo := stale;
      ghost var tokensGone: set<(Key, Key)>, pairsGone: set<(PairKey, Key)> := {}, {};
      NothingRemoved(before);
      while todo != {}
        invariant todo <= stale && pools == before.pools - stale
        invariant tokensGone == TokenRemovals(before, stale - todo) && pairsGone == PairRemovals(before, stale - todo)
        invariant tokenToPools == TokensWithout(before.tokens, tokensGone)
        invariant pairToPools == PairsWithout(before.pairs, pairsGone)
        decreases todo
      {
        var pool := AnyOf(todo);
        var state := gone[pool].state;
        RemoveToken(state.mintA, pool, before.tokens, tokensGone);
        RemoveToken(state.mintB, pool, before.tokens, tokensGone + {(state.mintA, pool)});
        RemovePair(NormalizePair(state.mintA, state.mintB), pool, before.pairs, pairsGone);
        tokensGone := tokensGone + {(state.mintA, pool)} + {(state.mintB, pool)};
        pairsGone := pairsGone + {(PairOf(state), pool)};
        assert stale - (todo - {pool}) == (stale - todo) + {pool};
        todo := todo - {pool};
      }
      assert stale - todo == stale;
    }
  }
}
