// Exactly which requests the limiter grants: those that keep every stretch since a key's bucket was full
// within the burst plus what refilled.
module RateExact {
  import opened Wrappers
  import opened RateLimit
  import opened RateEviction

  const EMPTY := State([], 0.0)

  // The state before request `i`, and what it is told.
  function StateAt(cfg: Config, reqs: seq<Request>, i: nat): State
    requires i <= |reqs|
  {
    After(cfg, EMPTY, reqs[..i])
  }

  function VerdictAt(cfg: Config, reqs: seq<Request>, i: nat): Verdict
    requires i < |reqs|
  {
    Take(cfg, StateAt(cfg, reqs, i), reqs[i].key, reqs[i].at).1
  }

  predicate LostAt(cfg: Config, reqs: seq<Request>, i: nat, key: string)
    requires i < |reqs|
  {
    Loses(cfg, StateAt(cfg, reqs, i), reqs[i], key)
  }

  // Request `j` was this key's, and the bucket was not evicted between then and request `n`.
  predicate Held(cfg: Config, reqs: seq<Request>, j: nat, n: nat, key: string)
    requires n <= |reqs|
  {
    j < n && reqs[j].key == key && forall i :: j < i < n ==> !LostAt(cfg, reqs, i, key)
  }

  // The key's grants among requests `j` to `n`, the latter left out.
  function GrantsIn(cfg: Config, reqs: seq<Request>, j: nat, n: nat, key: string): nat
    requires n <= |reqs|
  {
    if n <= j then 0
    else
      GrantsIn(cfg, reqs, j, n - 1, key)
      + if reqs[n - 1].key == key && VerdictAt(cfg, reqs, n - 1).allowed then 1 else 0
  }

  // What the stated rate gives in a stretch of time.
  function Rate(cfg: Config, from: real, to: real): real { (to - from) * cfg.rpm / 60_000.0 }

  predicate Rising(reqs: seq<Request>) {
    forall i, j :: 0 <= i < j < |reqs| ==> reqs[i].at <= reqs[j].at
  }

  lemma RateAdds(cfg: Config, a: real, b: real, c: real)
    ensures Rate(cfg, a, c) == Rate(cfg, a, b) + Rate(cfg, b, c) && Rate(cfg, a, a) == 0.0
    ensures Refill(cfg, b - a) == Rate(cfg, a, b)
  {
  }

  lemma {:induction false} AfterSnoc(cfg: Config, st: State, reqs: seq<Request>, r: Request)
    ensures After(cfg, st, reqs + [r]) == Take(cfg, After(cfg, st, reqs), r.key, r.at).0
    ensures Run(cfg, st, reqs + [r]) == Run(cfg, st, reqs) + [Take(cfg, After(cfg, st, reqs), r.key, r.at).1]
    decreases |reqs|
  {
    hide Take;
    if reqs == [] {
      assert reqs + [r] == [r] && [r][1..] == [];
      assert After(cfg, Take(cfg, st, r.key, r.at).0, []) == Take(cfg, st, r.key, r.at).0;
      assert Run(cfg, Take(cfg, st, r.key, r.at).0, []) == [];
    } else {
      assert (reqs + [r])[0] == reqs[0] && (reqs + [r])[1..] == reqs[1..] + [r];
      AfterSnoc(cfg, Take(cfg, st, reqs[0].key, reqs[0].at).0, reqs[1..], r);
    }
  }

  lemma StateStep(cfg: Config, reqs: seq<Request>, n: nat)
    requires n < |reqs|
    ensures StateAt(cfg, reqs, n + 1) == Take(cfg, StateAt(cfg, reqs, n), reqs[n].key, reqs[n].at).0
  {
    hide Take, After;
    assert reqs[..n + 1] == reqs[..n] + [reqs[n]];
    AfterSnoc(cfg, EMPTY, reqs[..n], reqs[n]);
  }

  lemma {:induction false} RunIsVerdicts(cfg: Config, reqs: seq<Request>, n: nat)
    requires n <= |reqs|
    ensures |Run(cfg, EMPTY, reqs[..n])| == n
    ensures forall i :: 0 <= i < n ==> Run(cfg, EMPTY, reqs[..n])[i] == VerdictAt(cfg, reqs, i)
  {
    hide Take, After;
    if n == 0 {
      assert reqs[..0] == [];
    } else {
      RunIsVerdicts(cfg, reqs, n - 1);
      assert reqs[..n] == reqs[..n - 1] + [reqs[n - 1]];
      AfterSnoc(cfg, EMPTY, reqs[..n - 1], reqs[n - 1]);
    }
  }

  // ---------- one take ----------

  // At most a full bucket.
  function Capped(cfg: Config, x: real): real { if x < cfg.burst then x else cfg.burst }

  lemma SpendIs(cfg: Config, found: Option<Bucket>, key: string, at: real, t: real)
    requires Enabled(cfg) && cfg.burst >= 0.0 && at <= t
    requires found.Some? ==> found.value.last <= at
    ensures var have := if found.Some? then TokensAt(cfg, found.value, at) else cfg.burst;
      var (b, v) := Spend(cfg, found, at);
      && (v.allowed <==> have >= 1.0)
      && TokensAt(cfg, b, t) == Capped(cfg, have - (if v.allowed then 1.0 else 0.0) + Rate(cfg, at, t))
  {
    RateAdds(cfg, at, t, t);
    RefillFacts(cfg, 0.0, 0.0);
    assert at - at == 0.0;
  }

  // The key's own request: granted when a whole token is there, which is all it costs.
  lemma OwnTake(cfg: Config, st: State, r: Request, t: real)
    requires Enabled(cfg) && cfg.burst >= 0.0 && Healthy(cfg, st.entries, r.at) && r.at <= t
    ensures var have := Spendable(cfg, st.entries, r.key, r.at);
      var (st', v) := Take(cfg, st, r.key, r.at);
      && (v.allowed <==> have >= 1.0)
      && Spendable(cfg, st'.entries, r.key, t)
           == Capped(cfg, have - (if v.allowed then 1.0 else 0.0) + Rate(cfg, r.at, t))
  {
    hide Find, Sweep, Evict, Put, Spend, TokensAt, FullyRefilled, Judge, Capped;
    var swept := AfterPeriodicSweep(cfg, st, r.at).entries;
    SweepSpends(cfg, st.entries, r.key, r.at);
    SweepSpends(cfg, swept, r.key, r.at);
    FindSweep(cfg, swept, r.at, r.key);
    EvictFinds(Sweep(cfg, swept, r.at), cfg.maxBuckets, r.key);
    var room := MakeRoom(cfg, swept, r.key, r.at);
    assert Find(room, r.key) == Find(swept, r.key);
    SpendIs(cfg, Find(room, r.key), r.key, r.at, t);
    FindPut(room, r.key, Spend(cfg, Find(room, r.key), r.at).0, r.key);
  }

  // Another key's request leaves what is there alone, unless it evicts the bucket.
  lemma OtherTake(cfg: Config, st: State, r: Request, key: string, t: real)
    requires Enabled(cfg) && cfg.burst >= 0.0 && Healthy(cfg, st.entries, r.at) && r.at <= t && r.key != key
    ensures var st' := Take(cfg, st, r.key, r.at).0;
      && (Loses(cfg, st, r, key) ==> Spendable(cfg, st'.entries, key, t) == cfg.burst)
      && (!Loses(cfg, st, r, key) ==> Spendable(cfg, st'.entries, key, t) == Spendable(cfg, st.entries, key, t))
  {
    hide Find, Sweep, Evict, Put, Spend, TokensAt, FullyRefilled, Judge;
    var swept := AfterPeriodicSweep(cfg, st, r.at).entries;
    SweptSpends(cfg, st.entries, key, r.at, t);
    SweepSpends(cfg, st.entries, key, r.at);
    SweptSpends(cfg, swept, key, r.at, t);
    FindSweep(cfg, swept, r.at, key);
    FindSweep(cfg, swept, r.at, r.key);
    EvictFinds(Sweep(cfg, swept, r.at), cfg.maxBuckets, key);
    EvictSubset(Sweep(cfg, swept, r.at), cfg.maxBuckets, key);
    var room := MakeRoom(cfg, swept, r.key, r.at);
    FindPut(room, r.key, Spend(cfg, Find(room, r.key), r.at).0, key);
  }

  lemma SweptSpends(cfg: Config, entries: seq<Entry>, key: string, at: real, t: real)
    requires Enabled(cfg) && Healthy(cfg, entries, at) && at <= t
    ensures Spendable(cfg, Sweep(cfg, entries, at), key, t) == Spendable(cfg, entries, key, t)
  {
    hide Find, Sweep, FullyRefilled;
    FindSweep(cfg, entries, at, key);
    var found := Find(entries, key);
    if found.Some? && FullyRefilled(cfg, found.value, at) {
      RefilledIsFull(cfg, found.value, at);
      TokensGrow(cfg, found.value, at, t);
    }
  }

  // ---------- the balance of one key ----------

  lemma HealthAt(cfg: Config, reqs: seq<Request>, n: nat)
    requires Enabled(cfg) && cfg.burst >= 0.0 && Rising(reqs) && n < |reqs|
    ensures Healthy(cfg, StateAt(cfg, reqs, n).entries, reqs[n].at)
  {
    var now := reqs[0].at;
    RisingIsOrdered(reqs[..n], now);
    NothingIsHealthy(cfg, now);
    ReachesHealth(cfg, EMPTY, now, reqs[..n], reqs[n].at);
  }

  lemma {:induction false} RisingIsOrdered(reqs: seq<Request>, now: real)
    requires Rising(reqs) && (reqs != [] ==> now <= reqs[0].at)
    ensures Ordered(reqs, now)
  {
    if reqs != [] { RisingIsOrdered(reqs[1..], reqs[0].at); }
  }

  // What a key held since request `j` has left at `t`, if nothing was capped since.
  function Left(cfg: Config, reqs: seq<Request>, j: nat, n: nat, key: string, t: real): real
    requires j < n <= |reqs|
  {
    cfg.burst + Rate(cfg, reqs[j].at, t) - GrantsIn(cfg, reqs, j, n, key) as real
  }

  // What can be spent is the least of the burst and what is left since each request the bucket was held.
  ghost predicate Balanced(cfg: Config, reqs: seq<Request>, n: nat, key: string, t: real)
    requires n <= |reqs|
  {
    var have := Spendable(cfg, StateAt(cfg, reqs, n).entries, key, t);
    && have <= cfg.burst
    && (forall j :: 0 <= j < n && Held(cfg, reqs, j, n, key) ==> have <= Left(cfg, reqs, j, n, key, t))
    && (have == cfg.burst
        || exists j :: 0 <= j < n && Held(cfg, reqs, j, n, key) && have == Left(cfg, reqs, j, n, key, t))
  }

  lemma {:induction false} BalanceHolds(cfg: Config, reqs: seq<Request>, n: nat, key: string, t: real)
    requires Enabled(cfg) && cfg.burst >= 0.0 && Rising(reqs) && n <= |reqs|
    requires forall i :: 0 <= i < n ==> reqs[i].at <= t
    ensures Balanced(cfg, reqs, n, key, t)
    decreases n
  {
    hide Take, After, Spendable, Loses, Healthy, Rate;
    if n == 0 {
      NothingSpendable(cfg, reqs, key, t);
    } else {
      var m, r := n - 1, reqs[n - 1];
      HealthAt(cfg, reqs, m);
      StateStep(cfg, reqs, m);
      if r.key == key {
        BalanceHolds(cfg, reqs, m, key, r.at);
        OwnStep(cfg, reqs, m, t);
      } else {
        BalanceHolds(cfg, reqs, m, key, t);
        OtherStep(cfg, reqs, m, key, t);
      }
    }
  }

  lemma NothingSpendable(cfg: Config, reqs: seq<Request>, key: string, t: real)
    ensures Spendable(cfg, StateAt(cfg, reqs, 0).entries, key, t) == cfg.burst
  {
    assert reqs[..0] == [];
  }

  lemma OwnLoses(cfg: Config, st: State, r: Request)
    ensures !Loses(cfg, st, r, r.key)
  {
    if Enabled(cfg) {
      hide Find, Sweep, Evict;
      var swept := AfterPeriodicSweep(cfg, st, r.at).entries;
      if Find(swept, r.key).None? { SweepFindsNone(cfg, swept, r.key, r.at); }
    }
  }

  lemma {:induction false} SweepFindsNone(cfg: Config, entries: seq<Entry>, key: string, t: real)
    requires Enabled(cfg) && Find(entries, key).None?
    ensures Find(Sweep(cfg, entries, t), key).None?
  {
    if entries != [] { SweepFindsNone(cfg, entries[1..], key, t); }
  }

  lemma OwnStep(cfg: Config, reqs: seq<Request>, m: nat, t: real)
    requires Enabled(cfg) && cfg.burst >= 0.0 && m < |reqs| && reqs[m].at <= t
    requires Healthy(cfg, StateAt(cfg, reqs, m).entries, reqs[m].at)
    requires Balanced(cfg, reqs, m, reqs[m].key, reqs[m].at)
    requires StateAt(cfg, reqs, m + 1) == Take(cfg, StateAt(cfg, reqs, m), reqs[m].key, reqs[m].at).0
    ensures Balanced(cfg, reqs, m + 1, reqs[m].key, t)
  {
    hide Take, StateAt, Spendable, Loses, Healthy, Rate, Held, Left;
    var r, key, n := reqs[m], reqs[m].key, m + 1;
    var have := Spendable(cfg, StateAt(cfg, reqs, m).entries, key, r.at);
    OwnTake(cfg, StateAt(cfg, reqs, m), r, t);
    forall j | 0 <= j < m
      ensures Held(cfg, reqs, j, n, key) <==> Held(cfg, reqs, j, m, key)
      ensures Left(cfg, reqs, j, n, key, t) == Left(cfg, reqs, j, m, key, r.at) + Rate(cfg, r.at, t)
                                                   - if VerdictAt(cfg, reqs, m).allowed then 1.0 else 0.0
    {
      LeftAfterOwn(cfg, reqs, j, m, t);
    }
    LeftSinceOwn(cfg, reqs, m, t);
    var later := Spendable(cfg, StateAt(cfg, reqs, n).entries, key, t);
    forall j | 0 <= j < n && Held(cfg, reqs, j, n, key) ensures later <= Left(cfg, reqs, j, n, key, t) {
      if j < m { assert Held(cfg, reqs, j, m, key); }
    }
    if have == cfg.burst {
      assert later == cfg.burst || later == Left(cfg, reqs, m, n, key, t);
    } else {
      var j :| 0 <= j < m && Held(cfg, reqs, j, m, key) && have == Left(cfg, reqs, j, m, key, r.at);
      assert Held(cfg, reqs, j, n, key);
      assert later == cfg.burst || later == Left(cfg, reqs, j, n, key, t);
    }
  }

  lemma LeftAfterOwn(cfg: Config, reqs: seq<Request>, j: nat, m: nat, t: real)
    requires j < m < |reqs|
    ensures var key := reqs[m].key;
      && (Held(cfg, reqs, j, m + 1, key) <==> Held(cfg, reqs, j, m, key))
      && Left(cfg, reqs, j, m + 1, key, t) == Left(cfg, reqs, j, m, key, reqs[m].at) + Rate(cfg, reqs[m].at, t)
                                              - if VerdictAt(cfg, reqs, m).allowed then 1.0 else 0.0
  {
    hide Take, StateAt, Loses, Rate, VerdictAt;
    RateAdds(cfg, reqs[j].at, reqs[m].at, t);
    OwnLoses(cfg, StateAt(cfg, reqs, m), reqs[m]);
  }

  lemma LeftSinceOwn(cfg: Config, reqs: seq<Request>, m: nat, t: real)
    requires m < |reqs|
    ensures Held(cfg, reqs, m, m + 1, reqs[m].key)
    ensures Left(cfg, reqs, m, m + 1, reqs[m].key, t)
         == cfg.burst + Rate(cfg, reqs[m].at, t) - if VerdictAt(cfg, reqs, m).allowed then 1.0 else 0.0
  {
    hide VerdictAt, StateAt, Rate;
    OneGrant(cfg, reqs, m, reqs[m].key);
  }

  lemma OneGrant(cfg: Config, reqs: seq<Request>, m: nat, key: string)
    requires m < |reqs| && reqs[m].key == key
    ensures GrantsIn(cfg, reqs, m, m + 1, key) == if VerdictAt(cfg, reqs, m).allowed then 1 else 0
  {
    hide VerdictAt;
    assert GrantsIn(cfg, reqs, m, m, key) == 0;
  }

  lemma OtherStep(cfg: Config, reqs: seq<Request>, m: nat, key: string, t: real)
    requires Enabled(cfg) && cfg.burst >= 0.0 && m < |reqs| && reqs[m].at <= t && reqs[m].key != key
    requires Healthy(cfg, StateAt(cfg, reqs, m).entries, reqs[m].at)
    requires Balanced(cfg, reqs, m, key, t)
    requires StateAt(cfg, reqs, m + 1) == Take(cfg, StateAt(cfg, reqs, m), reqs[m].key, reqs[m].at).0
    ensures Balanced(cfg, reqs, m + 1, key, t)
  {
    hide Take, StateAt, Spendable, Loses, Healthy, Rate, Held, Left, LostAt;
    var n := m + 1;
    OtherTake(cfg, StateAt(cfg, reqs, m), reqs[m], key, t);
    LostIs(cfg, reqs, m, key);
    forall j | 0 <= j <= m
      ensures Held(cfg, reqs, j, n, key) <==> j < m && Held(cfg, reqs, j, m, key) && !LostAt(cfg, reqs, m, key)
      ensures j < m ==> Left(cfg, reqs, j, n, key, t) == Left(cfg, reqs, j, m, key, t)
    {
      LeftAfterOther(cfg, reqs, j, m, key, t);
    }
    var have := Spendable(cfg, StateAt(cfg, reqs, m).entries, key, t);
    var later := Spendable(cfg, StateAt(cfg, reqs, n).entries, key, t);
    forall j | 0 <= j < n && Held(cfg, reqs, j, n, key) ensures later <= Left(cfg, reqs, j, n, key, t) {
      assert j < m && Held(cfg, reqs, j, m, key);
    }
    if have != cfg.burst && !LostAt(cfg, reqs, m, key) {
      var j :| 0 <= j < m && Held(cfg, reqs, j, m, key) && have == Left(cfg, reqs, j, m, key, t);
      assert Held(cfg, reqs, j, n, key);
      assert later == Left(cfg, reqs, j, n, key, t);
    }
  }

  lemma LostIs(cfg: Config, reqs: seq<Request>, m: nat, key: string)
    requires m < |reqs|
    ensures LostAt(cfg, reqs, m, key) <==> Loses(cfg, StateAt(cfg, reqs, m), reqs[m], key)
  {
  }

  lemma LeftAfterOther(cfg: Config, reqs: seq<Request>, j: nat, m: nat, key: string, t: real)
    requires j <= m < |reqs| && reqs[m].key != key
    ensures Held(cfg, reqs, j, m + 1, key) <==> j < m && Held(cfg, reqs, j, m, key) && !LostAt(cfg, reqs, m, key)
    ensures j < m ==> Left(cfg, reqs, j, m + 1, key, t) == Left(cfg, reqs, j, m, key, t)
  {
    hide StateAt, LostAt, Rate, VerdictAt;
  }

  // ---------- what is granted ----------

  // A request is granted if and only if, counting it, the key's grants since each of its requests from which
  // on its bucket was held stay within the burst plus what the rate gave meanwhile.
  lemma GrantedExactlyWhen(cfg: Config, reqs: seq<Request>, n: nat)
    requires cfg.rpm > 0.0 && cfg.burst >= 0.0 && Rising(reqs) && n < |reqs|
    ensures |Run(cfg, EMPTY, reqs)| == |reqs| && Run(cfg, EMPTY, reqs)[n] == VerdictAt(cfg, reqs, n)
    ensures var key := reqs[n].key;
      Run(cfg, EMPTY, reqs)[n].allowed
      <==> && 1.0 <= cfg.burst
           && forall j :: 0 <= j < n && Held(cfg, reqs, j, n, key) ==>
                GrantsIn(cfg, reqs, j, n, key) as real + 1.0 <= cfg.burst + Rate(cfg, reqs[j].at, reqs[n].at)
  {
    hide Take, StateAt, Spendable, Held, Healthy, Rate, GrantsIn;
    assert reqs[..|reqs|] == reqs;
    RunIsVerdicts(cfg, reqs, |reqs|);
    BalanceHolds(cfg, reqs, n, reqs[n].key, reqs[n].at);
    HealthAt(cfg, reqs, n);
    OwnTake(cfg, StateAt(cfg, reqs, n), reqs[n], reqs[n].at);
  }

  // ---------- the burst ----------

  function Copies(r: Request, n: nat): seq<Request> { seq(n, _ => r) }

  // A key not seen before may spend its whole burst at once, and no more: of n requests at one moment, the
  // i-th is granted if and only if the burst holds i + 1 whole tokens.
  lemma {:induction false} BurstIsGranted(cfg: Config, before: seq<Request>, r: Request, n: nat, i: nat)
    requires cfg.rpm > 0.0 && cfg.burst >= 0.0 && i < n && Rising(before + Copies(r, n))
    requires forall k :: 0 <= k < |before| ==> before[k].key != r.key
    ensures var reqs := before + Copies(r, n);
      && |Run(cfg, EMPTY, reqs)| == |before| + n
      && (Run(cfg, EMPTY, reqs)[|before| + i].allowed <==> i < cfg.burst.Floor)
      && GrantsIn(cfg, reqs, |before|, |before| + i + 1, r.key)
           == if i < cfg.burst.Floor then i + 1 else if cfg.burst.Floor < 0 then 0 else cfg.burst.Floor
    decreases i
  {
    hide Run, VerdictAt, Loses, StateAt;
    var reqs, b := before + Copies(r, n), |before|;
    var e := b + i;
    assert forall k :: b <= k < b + n ==> reqs[k] == r;
    assert forall k :: 0 <= k < b ==> reqs[k] == before[k];
    GrantedExactlyWhen(cfg, reqs, b + i);
    RateAdds(cfg, r.at, r.at, r.at);
    if i > 0 { BurstIsGranted(cfg, before, r, n, i - 1); }
    assert GrantsIn(cfg, reqs, b, b + i, r.key) == if i == 0 then 0 else GrantsIn(cfg, reqs, b, b + (i - 1) + 1, r.key);
    forall k | b <= k < e ensures Held(cfg, reqs, k, e, r.key) {
      forall l | k < l < e ensures !LostAt(cfg, reqs, l, r.key) { OwnLoses(cfg, StateAt(cfg, reqs, l), reqs[l]); }
    }
    forall k | b <= k <= e ensures GrantsIn(cfg, reqs, k, e, r.key) <= GrantsIn(cfg, reqs, b, e, r.key) {
      FewerLater(cfg, reqs, b, k, e, r.key);
    }
  }

  lemma {:induction false} FewerLater(cfg: Config, reqs: seq<Request>, j: nat, k: nat, n: nat, key: string)
    requires j <= k <= n <= |reqs|
    ensures GrantsIn(cfg, reqs, k, n, key) <= GrantsIn(cfg, reqs, j, n, key)
    decreases n
  {
    hide VerdictAt;
    if k < n { FewerLater(cfg, reqs, j, k, n - 1, key); }
  }

  // ---------- runs without eviction ----------

  lemma {:induction false} NothingIsLost(cfg: Config, st: State, reqs: seq<Request>, i: nat, key: string)
    requires NoEviction(cfg, st, reqs) && i < |reqs|
    ensures !Loses(cfg, After(cfg, st, reqs[..i]), reqs[i], key)
    decreases |reqs|
  {
    if i == 0 {
      assert reqs[..0] == [];
      NotLost(cfg, st, reqs[0], key);
    } else {
      hide Take, Loses, Evicts;
      var next := Take(cfg, st, reqs[0].key, reqs[0].at).0;
      assert reqs[..i][0] == reqs[0] && reqs[..i][1..] == reqs[1..][..i - 1];
      NothingIsLost(cfg, next, reqs[1..], i - 1, key);
    }
  }

  lemma NotLost(cfg: Config, st: State, r: Request, key: string)
    requires !Evicts(cfg, st, r.key, r.at)
    ensures !Loses(cfg, st, r, key)
  {
    hide Find;
    if Enabled(cfg) {
      var swept := AfterPeriodicSweep(cfg, st, r.at).entries;
      if |Sweep(cfg, swept, r.at)| < cfg.maxBuckets || Sweep(cfg, swept, r.at) == [] {
        assert Evict(Sweep(cfg, swept, r.at), cfg.maxBuckets) == Sweep(cfg, swept, r.at);
      }
    }
  }

  // Without eviction a refusal is owed: since one of the key's requests, or for lack of a single token, its
  // grants and this one would exceed the burst plus what the rate gave.
  lemma RefusedOnlyOverRate(cfg: Config, reqs: seq<Request>, n: nat)
    requires cfg.rpm > 0.0 && cfg.burst >= 1.0 && Rising(reqs) && n < |reqs| && NoEviction(cfg, EMPTY, reqs)
    ensures |Run(cfg, EMPTY, reqs)| == |reqs|
    ensures !Run(cfg, EMPTY, reqs)[n].allowed <==>
      exists j :: 0 <= j < n && reqs[j].key == reqs[n].key
        && GrantsIn(cfg, reqs, j, n, reqs[n].key) as real + 1.0 > cfg.burst + Rate(cfg, reqs[j].at, reqs[n].at)
  {
    hide Run, Loses, GrantsIn, Rate;
    GrantedExactlyWhen(cfg, reqs, n);
    forall i | 0 <= i < n ensures !LostAt(cfg, reqs, i, reqs[n].key) {
      NothingIsLost(cfg, EMPTY, reqs, i, reqs[n].key);
    }
    forall j | 0 <= j < n && reqs[j].key == reqs[n].key ensures Held(cfg, reqs, j, n, reqs[n].key) {}
  }

  // ---------- without a rate ----------

  // With no rate configured nothing is limited and nothing is kept.
  lemma {:induction false} NothingIsLimited(cfg: Config, st: State, reqs: seq<Request>)
    requires cfg.rpm <= 0.0
    ensures |Run(cfg, st, reqs)| == |reqs| && After(cfg, st, reqs) == st
    ensures forall i :: 0 <= i < |reqs| ==> Run(cfg, st, reqs)[i] == Verdict(true, 0)
    ensures forall key, t :: Peek(cfg, st, key, t) == Verdict(true, 0)
    decreases |reqs|
  {
    if reqs != [] {
      assert Take(cfg, st, reqs[0].key, reqs[0].at) == (st, GRANTED);
      NothingIsLimited(cfg, st, reqs[1..]);
    }
  }
}
