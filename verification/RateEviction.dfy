// The limiter under a flood of keys: what an evicted key gets, in any run at all.
module RateEviction {
  import opened Wrappers
  import opened RateLimit

  // The key's bucket was there, survived every sweep of this take, and was dropped to make room.
  predicate Loses(cfg: Config, st: State, r: Request, key: string) {
    Enabled(cfg) &&
    var swept := AfterPeriodicSweep(cfg, st, r.at).entries;
    && Find(swept, r.key).None? && |swept| >= cfg.maxBuckets
    && Find(Sweep(cfg, swept, r.at), key).Some?
    && Find(Evict(Sweep(cfg, swept, r.at), cfg.maxBuckets), key).None?
  }

  function Losses(cfg: Config, st: State, reqs: seq<Request>, key: string): nat
    decreases |reqs|
  {
    if reqs == [] then 0
    else
      (if Loses(cfg, st, reqs[0], key) then 1 else 0)
      + Losses(cfg, Take(cfg, st, reqs[0].key, reqs[0].at).0, reqs[1..], key)
  }

  ghost predicate Healthy(cfg: Config, entries: seq<Entry>, now: real) {
    && DistinctKeys(entries)
    && forall k: string :: Find(entries, k).Some? ==>
         0.0 <= Find(entries, k).value.tokens <= cfg.burst && Find(entries, k).value.last <= now
  }

  // What a key could spend at `t`; one without a bucket starts with a full one.
  function Spendable(cfg: Config, entries: seq<Entry>, key: string, t: real): real {
    var found := Find(entries, key);
    if found.Some? then TokensAt(cfg, found.value, t) else cfg.burst
  }

  lemma SpendableGrowth(cfg: Config, entries: seq<Entry>, key: string, t: real, t': real)
    requires Enabled(cfg) && t <= t'
    ensures Spendable(cfg, entries, key, t') <= Spendable(cfg, entries, key, t) + Refill(cfg, t' - t)
    ensures Spendable(cfg, entries, key, t) <= cfg.burst
  {
    hide Find;
    RefillFacts(cfg, 0.0, t' - t);
    var found := Find(entries, key);
    if found.Some? {
      RefillFacts(cfg, t - found.value.last, t' - t);
      assert t' - found.value.last == t - found.value.last + (t' - t);
    }
  }

  lemma SweepSpends(cfg: Config, entries: seq<Entry>, key: string, t: real)
    requires Enabled(cfg) && Healthy(cfg, entries, t)
    ensures Healthy(cfg, Sweep(cfg, entries, t), t)
    ensures Spendable(cfg, Sweep(cfg, entries, t), key, t) == Spendable(cfg, entries, key, t)
  {
    hide Find, Sweep, FullyRefilled;
    FindSweep(cfg, entries, t, key);
    forall k: string ensures Find(Sweep(cfg, entries, t), k).Some? ==>
      Find(Sweep(cfg, entries, t), k) == Find(entries, k)
    {
      FindSweep(cfg, entries, t, k);
    }
    var found := Find(entries, key);
    if found.Some? && FullyRefilled(cfg, found.value, t) { RefilledIsFull(cfg, found.value, t); }
  }

  lemma {:induction false} EvictFinds(entries: seq<Entry>, maxBuckets: int, k: string)
    requires DistinctKeys(entries)
    ensures DistinctKeys(Evict(entries, maxBuckets))
    ensures Find(Evict(entries, maxBuckets), k).Some? ==> Find(Evict(entries, maxBuckets), k) == Find(entries, k)
  {
    if |entries| >= maxBuckets && entries != [] {
      HeadIsUnique(entries);
      EvictFinds(entries[1..], maxBuckets, k);
    }
  }

  lemma EvictSpends(cfg: Config, entries: seq<Entry>, key: string, t: real)
    requires Enabled(cfg) && cfg.burst >= 0.0 && Healthy(cfg, entries, t)
    ensures var kept := Evict(entries, cfg.maxBuckets);
      && Healthy(cfg, kept, t)
      && Spendable(cfg, kept, key, t)
           <= Spendable(cfg, entries, key, t)
              + if Find(entries, key).Some? && Find(kept, key).None? then cfg.burst else 0.0
  {
    hide Find, Evict;
    EvictFinds(entries, cfg.maxBuckets, key);
    EvictSubset(entries, cfg.maxBuckets, key);
    forall k: string ensures Find(Evict(entries, cfg.maxBuckets), k).Some? ==>
      Find(Evict(entries, cfg.maxBuckets), k) == Find(entries, k)
    {
      EvictFinds(entries, cfg.maxBuckets, k);
    }
    if Find(entries, key).Some? { RefillFacts(cfg, 0.0, t - Find(entries, key).value.last); }
  }

  lemma PutSpends(cfg: Config, entries: seq<Entry>, r: Request, key: string)
    requires Enabled(cfg) && cfg.burst >= 0.0 && Healthy(cfg, entries, r.at)
    ensures var (b, v) := Spend(cfg, Find(entries, r.key), r.at);
      && Healthy(cfg, Put(entries, r.key, b), r.at)
      && Spendable(cfg, Put(entries, r.key, b), key, r.at) + (if r.key == key && v.allowed then 1.0 else 0.0)
           <= Spendable(cfg, entries, key, r.at)
  {
    hide Find, Put;
    var found := Find(entries, r.key);
    var (b, v) := Spend(cfg, found, r.at);
    SpendIsSound(cfg, found, r.at);
    PutShape(entries, r.key, b);
    forall k: string ensures Find(Put(entries, r.key, b), k) == if k == r.key then Some(b) else Find(entries, k) {
      FindPut(entries, r.key, b, k);
    }
    RefillFacts(cfg, 0.0, 0.0);
    assert r.at - r.at == 0.0;
  }

  // One take grants no more than was there, and an eviction adds at most one burst.
  lemma TakeSpends(cfg: Config, st: State, r: Request, key: string)
    requires Enabled(cfg) && cfg.burst >= 0.0 && Healthy(cfg, st.entries, r.at)
    ensures var (st', v) := Take(cfg, st, r.key, r.at);
      && Healthy(cfg, st'.entries, r.at)
      && Spendable(cfg, st'.entries, key, r.at) + (if r.key == key && v.allowed then 1.0 else 0.0)
           <= Spendable(cfg, st.entries, key, r.at) + if Loses(cfg, st, r, key) then cfg.burst else 0.0
  {
    hide Find, Sweep, Evict, Put, Healthy, Spendable, Spend, Judge, FullyRefilled;
    var swept := AfterPeriodicSweep(cfg, st, r.at).entries;
    SweepSpends(cfg, st.entries, key, r.at);
    SweepSpends(cfg, swept, key, r.at);
    EvictSpends(cfg, Sweep(cfg, swept, r.at), key, r.at);
    PutSpends(cfg, MakeRoom(cfg, swept, r.key, r.at), r, key);
  }

  lemma {:induction false} RunLength(cfg: Config, st: State, reqs: seq<Request>)
    ensures |Run(cfg, st, reqs)| == |reqs|
    decreases |reqs|
  {
    if reqs != [] { RunLength(cfg, Take(cfg, st, reqs[0].key, reqs[0].at).0, reqs[1..]); }
  }

  lemma LaterIsHealthy(cfg: Config, entries: seq<Entry>, t: real, t': real)
    requires Healthy(cfg, entries, t) && t <= t'
    ensures Healthy(cfg, entries, t')
  {
  }

  lemma {:induction false} RunSpends(cfg: Config, st: State, now: real, reqs: seq<Request>, key: string, end: real)
    requires Enabled(cfg) && cfg.burst >= 0.0 && Healthy(cfg, st.entries, now) && Ordered(reqs, now)
    requires now <= end && (reqs == [] || reqs[|reqs| - 1].at <= end)
    ensures |Run(cfg, st, reqs)| == |reqs|
    ensures Granteds(Run(cfg, st, reqs), reqs, key) as real
         <= Spendable(cfg, st.entries, key, now) + Refill(cfg, end - now)
            + cfg.burst * Losses(cfg, st, reqs, key) as real
    decreases |reqs|
  {
    hide Find, Take, Healthy, Refill, Loses, Spendable, Run, Granteds, Losses;
    RunLength(cfg, st, reqs);
    RefillFacts(cfg, 0.0, end - now);
    if reqs == [] {
      NothingGranted(cfg, st, key);
      SpendableIsPositive(cfg, st.entries, key, now);
    } else {
      var q := reqs[0];
      var next := Take(cfg, st, q.key, q.at).0;
      OrderedEnd(reqs, now);
      LaterIsHealthy(cfg, st.entries, now, q.at);
      SpendableGrowth(cfg, st.entries, key, now, q.at);
      TakeSpends(cfg, st, q, key);
      RunSpends(cfg, next, q.at, reqs[1..], key, end);
      RefillFacts(cfg, q.at - now, end - q.at);
      assert end - now == q.at - now + (end - q.at);
      OneMoreGrant(cfg, st, reqs, key);
      OneMoreLoss(cfg, st, reqs, key);
    }
  }

  lemma SpendableIsPositive(cfg: Config, entries: seq<Entry>, key: string, t: real)
    requires Enabled(cfg) && cfg.burst >= 0.0 && Healthy(cfg, entries, t)
    ensures 0.0 <= Spendable(cfg, entries, key, t)
  {
    hide Find;
    var found := Find(entries, key);
    if found.Some? { RefillFacts(cfg, 0.0, t - found.value.last); }
  }

  lemma NothingGranted(cfg: Config, st: State, key: string)
    ensures Run(cfg, st, []) == [] && Granteds(Run(cfg, st, []), [], key) == 0 && Losses(cfg, st, [], key) == 0
  {
  }

  lemma OneMoreGrant(cfg: Config, st: State, reqs: seq<Request>, key: string)
    requires reqs != []
    ensures var (st', v) := Take(cfg, st, reqs[0].key, reqs[0].at);
      && |Run(cfg, st, reqs)| == |reqs| && |Run(cfg, st', reqs[1..])| == |reqs| - 1
      && Granteds(Run(cfg, st, reqs), reqs, key)
           == (if reqs[0].key == key && v.allowed then 1 else 0) + Granteds(Run(cfg, st', reqs[1..]), reqs[1..], key)
  {
    hide Take;
    RunLength(cfg, st, reqs);
    var next := Take(cfg, st, reqs[0].key, reqs[0].at).0;
    assert Run(cfg, st, reqs)[1..] == Run(cfg, next, reqs[1..]);
  }

  lemma OneMoreLoss(cfg: Config, st: State, reqs: seq<Request>, key: string)
    requires reqs != []
    ensures cfg.burst * Losses(cfg, st, reqs, key) as real
         == cfg.burst * Losses(cfg, Take(cfg, st, reqs[0].key, reqs[0].at).0, reqs[1..], key) as real
            + if Loses(cfg, st, reqs[0], key) then cfg.burst else 0.0
  {
    hide Loses, Take;
  }

  lemma {:induction false} ReachesHealth(cfg: Config, st: State, now: real, reqs: seq<Request>, end: real)
    requires Enabled(cfg) && cfg.burst >= 0.0 && Healthy(cfg, st.entries, now) && Ordered(reqs, now) && now <= end
    requires reqs == [] || reqs[|reqs| - 1].at <= end
    ensures Healthy(cfg, After(cfg, st, reqs).entries, end)
    decreases |reqs|
  {
    hide Take, Healthy;
    if reqs == [] {
      LaterIsHealthy(cfg, st.entries, now, end);
    } else {
      var q := reqs[0];
      OrderedEnd(reqs, now);
      LaterIsHealthy(cfg, st.entries, now, q.at);
      TakeSpends(cfg, st, q, q.key);
      ReachesHealth(cfg, Take(cfg, st, q.key, q.at).0, q.at, reqs[1..], end);
    }
  }

  // In any stretch of any run, however many keys flood the limiter, one key is granted at most one burst,
  // one more for each time its bucket was evicted meanwhile, and what refilled.
  lemma FloodBound(cfg: Config, now: real, before: seq<Request>, window: seq<Request>, key: string)
    requires Enabled(cfg) && cfg.burst >= 0.0 && window != [] && Ordered(before + window, now)
    ensures var st := After(cfg, State([], 0.0), before);
      && |Run(cfg, st, window)| == |window|
      && Granteds(Run(cfg, st, window), window, key) as real
           <= cfg.burst * (1 + Losses(cfg, st, window, key)) as real
              + Refill(cfg, window[|window| - 1].at - window[0].at)
  {
    hide Take, Healthy, Refill, Spendable, Losses;
    var start, end := window[0].at, window[|window| - 1].at;
    OrderedParts(before, window, now);
    OrderedEnd(before + window, now);
    OrderedEnd(window, start);
    if before != [] { OrderedEnd(before, now); }
    assert Healthy(cfg, [], now) by { NothingIsHealthy(cfg, now); }
    ReachesHealth(cfg, State([], 0.0), now, before, start);
    var st := After(cfg, State([], 0.0), before);
    RunSpends(cfg, st, start, window, key, end);
    SpendableGrowth(cfg, st.entries, key, start, start);
  }

  lemma NothingIsHealthy(cfg: Config, now: real)
    ensures Healthy(cfg, [], now)
  {
  }

  lemma {:induction false} OrderedParts(a: seq<Request>, b: seq<Request>, now: real)
    requires Ordered(a + b, now) && b != []
    ensures Ordered(a, now) && now <= b[0].at && Ordered(b, b[0].at)
    ensures a != [] ==> a[|a| - 1].at <= b[0].at
  {
    if a == [] {
      assert a + b == b;
    } else {
      assert (a + b)[0] == a[0] && (a + b)[1..] == a[1..] + b;
      OrderedParts(a[1..], b, a[0].at);
    }
  }

  // A bucket just used is not dropped by a sweep.
  lemma JustUsedStays(cfg: Config, e: Entry, t: real)
    requires Enabled(cfg) && cfg.burst > 0.0 && e.bucket.last == t
    ensures Sweep(cfg, [e], t) == [e]
  {
    RefillPositive(cfg);
    DivMul(cfg.burst, RefillPerMs(cfg));
    MulMonotone(cfg.burst / RefillPerMs(cfg), 0.0, RefillPerMs(cfg));
    assert t - e.bucket.last == 0.0;
    assert !FullyRefilled(cfg, e.bucket, t);
    assert [e][1..] == [];
  }

  // One bucket of one token: a key without a bucket is let through and takes the only place.
  lemma TakesThePlace(cfg: Config, st: State, r: Request, key: string)
    requires Enabled(cfg) && cfg.burst == 1.0 && cfg.maxBuckets == 1
    requires st.entries == [] || (|st.entries| == 1 && st.entries[0].key != r.key && st.entries[0].bucket.last == r.at)
    ensures var (st', v) := Take(cfg, st, r.key, r.at);
      st'.entries == [Entry(r.key, Bucket(0.0, r.at))] && v.allowed
    ensures Loses(cfg, st, r, key) <==> st.entries != [] && st.entries[0].key == key
  {
    RefillFacts(cfg, 0.0, 0.0);
    assert r.at - r.at == 0.0;
    if st.entries != [] {
      assert st.entries == [st.entries[0]] && [st.entries[0]][1..] == [];
      JustUsedStays(cfg, st.entries[0], r.at);
    }
    hide Sweep;
    assert Sweep(cfg, [], r.at) == [] by { NothingToSweep(cfg, r.at); }
    assert Evict(st.entries, 1) == [];
    assert TokensAt(cfg, Bucket(cfg.burst, r.at), r.at) == 1.0;
    var swept := AfterPeriodicSweep(cfg, st, r.at).entries;
    assert swept == st.entries;
    if swept != [] {
      assert Find(swept[1..], r.key).None?;
      assert Find(swept, r.key).None?;
      assert Sweep(cfg, swept, r.at) == swept;
    }
    assert MakeRoom(cfg, swept, r.key, r.at) == [];
    assert Find([], r.key).None?;
    assert Spend(cfg, None, r.at) == (Bucket(0.0, r.at), GRANTED);
    assert Put([], r.key, Bucket(0.0, r.at)) == [Entry(r.key, Bucket(0.0, r.at))];
  }

  lemma NothingToSweep(cfg: Config, t: real)
    requires Enabled(cfg)
    ensures Sweep(cfg, [], t) == []
  {
  }

  // The extra burst is real: where one bucket of one token fits, another key's request in between lets a
  // key through twice at the same moment.
  lemma EvictionStartsAfresh(cfg: Config, t: real, key: string, other: string)
    requires Enabled(cfg) && cfg.burst == 1.0 && cfg.maxBuckets == 1 && key != other
    ensures var window := [Request(key, t), Request(other, t), Request(key, t)];
      var st := State([], 0.0);
      && |Run(cfg, st, window)| == 3 && Granteds(Run(cfg, st, window), window, key) == 2
      && Losses(cfg, st, window, key) == 1
  {
    hide Take, Loses;
    var a, b := Request(key, t), Request(other, t);
    var first := Take(cfg, State([], 0.0), key, t).0;
    var second := Take(cfg, first, other, t).0;
    TakesThePlace(cfg, State([], 0.0), a, key);
    TakesThePlace(cfg, first, b, key);
    TakesThePlace(cfg, second, a, key);
    var window := [a, b, a];
    assert window[1..] == [b, a] && [b, a][1..] == [a] && [a][1..] == [];
    OneMoreGrant(cfg, State([], 0.0), window, key);
    OneMoreGrant(cfg, first, [b, a], key);
    OneMoreGrant(cfg, second, [a], key);
    NothingGranted(cfg, Take(cfg, second, key, t).0, key);
    assert Losses(cfg, second, [a], key) == 0;
    assert Losses(cfg, first, [b, a], key) == 1;
  }
}
