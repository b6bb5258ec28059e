// The token-bucket limiter: a Map of buckets in insertion order, swept of full buckets and bounded
// by eviction, against a limiter that keeps every bucket for ever.
//
// Times are milliseconds and tokens are exact reals.
module RateLimit {
  import opened Wrappers

  datatype Config = Config(rpm: real, burst: real, maxBuckets: int)

  datatype Bucket = Bucket(tokens: real, last: real)

  datatype Entry = Entry(key: string, bucket: Bucket)

  datatype Verdict = Verdict(allowed: bool, retryAfter: int)

  datatype State = State(entries: seq<Entry>, lastSweep: real)

  datatype Request = Request(key: string, at: real)

  const SWEEP_EVERY_MS := 60_000.0

  const GRANTED := Verdict(true, 0)

  // ---------- the Map ----------

  predicate DistinctKeys(entries: seq<Entry>) {
    forall i, j :: 0 <= i < j < |entries| ==> entries[i].key != entries[j].key
  }

  function Find(entries: seq<Entry>, key: string): Option<Bucket> {
    if entries == [] then None
    else if entries[0].key == key then Some(entries[0].bucket)
    else Find(entries[1..], key)
  }

  // An entry keeps its place when its bucket changes; a new key goes to the end.
  function Put(entries: seq<Entry>, key: string, bucket: Bucket): seq<Entry> {
    if entries == [] then [Entry(key, bucket)]
    else if entries[0].key == key then [Entry(key, bucket)] + entries[1..]
    else [entries[0]] + Put(entries[1..], key, bucket)
  }

  lemma {:induction false} FindPut(entries: seq<Entry>, key: string, bucket: Bucket, k: string)
    ensures Find(Put(entries, key, bucket), k) == if k == key then Some(bucket) else Find(entries, k)
  {
    if entries != [] {
      FindPut(entries[1..], key, bucket, k);
      assert ([Entry(key, bucket)] + entries[1..])[1..] == entries[1..];
    }
  }

  lemma {:induction false} PutShape(entries: seq<Entry>, key: string, bucket: Bucket)
    requires DistinctKeys(entries)
    ensures DistinctKeys(Put(entries, key, bucket))
    ensures |Put(entries, key, bucket)| == if Find(entries, key).Some? then |entries| else |entries| + 1
    ensures forall e :: e in Put(entries, key, bucket) ==> e.key == key || e in entries
  {
    if entries != [] { PutShape(entries[1..], key, bucket); }
  }

  lemma {:induction false} FindIsMember(entries: seq<Entry>, key: string)
    ensures Find(entries, key).Some? <==> exists i :: 0 <= i < |entries| && entries[i].key == key
    ensures Find(entries, key).Some? ==> Entry(key, Find(entries, key).value) in entries
  {
    if entries != [] {
      FindIsMember(entries[1..], key);
      if exists i :: 0 <= i < |entries| && entries[i].key == key {
        var i :| 0 <= i < |entries| && entries[i].key == key;
        assert i > 0 ==> entries[1..][i - 1].key == key;
      }
    }
  }

  // ---------- the limiter's steps ----------

  predicate Enabled(cfg: Config) { cfg.rpm > 0.0 }

  function RefillPerMs(cfg: Config): real { cfg.rpm / 60_000.0 }

  // What `dt` milliseconds add: rpm tokens a minute.
  function Refill(cfg: Config, dt: real): real { dt * RefillPerMs(cfg) }

  function TokensAt(cfg: Config, b: Bucket, t: real): real {
    var filled := b.tokens + Refill(cfg, t - b.last);
    if filled < cfg.burst then filled else cfg.burst
  }

  predicate FullyRefilled(cfg: Config, b: Bucket, t: real)
    requires Enabled(cfg)
  {
    t - b.last > cfg.burst / RefillPerMs(cfg)
  }

  function Sweep(cfg: Config, entries: seq<Entry>, t: real): seq<Entry>
    requires Enabled(cfg)
  {
    if entries == [] then []
    else if FullyRefilled(cfg, entries[0].bucket, t) then Sweep(cfg, entries[1..], t)
    else [entries[0]] + Sweep(cfg, entries[1..], t)
  }

  // Oldest first, until there is room for one more.
  function Evict(entries: seq<Entry>, maxBuckets: int): seq<Entry> {
    if |entries| >= maxBuckets && entries != [] then Evict(entries[1..], maxBuckets) else entries
  }

  function Ceil(x: real): int { -((-x).Floor) }

  function Judge(cfg: Config, tokens: real): Verdict
    requires Enabled(cfg)
  {
    if tokens >= 1.0 then GRANTED else Verdict(false, Ceil((1.0 - tokens) / RefillPerMs(cfg) / 1000.0))
  }

  function Peek(cfg: Config, st: State, key: string, t: real): Verdict {
    if !Enabled(cfg) then GRANTED
    else
      match Find(st.entries, key)
      case None => GRANTED
      case Some(b) => Judge(cfg, TokensAt(cfg, b, t))
  }

  function AfterPeriodicSweep(cfg: Config, st: State, t: real): State
    requires Enabled(cfg)
  {
    if t - st.lastSweep > SWEEP_EVERY_MS then State(Sweep(cfg, st.entries, t), t) else st
  }

  function MakeRoom(cfg: Config, entries: seq<Entry>, key: string, t: real): seq<Entry>
    requires Enabled(cfg)
  {
    if Find(entries, key).None? && |entries| >= cfg.maxBuckets then Evict(Sweep(cfg, entries, t), cfg.maxBuckets)
    else entries
  }

  function Spend(cfg: Config, found: Option<Bucket>, t: real): (Bucket, Verdict)
    requires Enabled(cfg)
  {
    var b := if found.Some? then found.value else Bucket(cfg.burst, t);
    var tokens := TokensAt(cfg, b, t);
    (Bucket(if tokens >= 1.0 then tokens - 1.0 else tokens, t), Judge(cfg, tokens))
  }

  function Take(cfg: Config, st: State, key: string, t: real): (State, Verdict) {
    if !Enabled(cfg) then (st, GRANTED)
    else
      var swept := AfterPeriodicSweep(cfg, st, t);
      var room := MakeRoom(cfg, swept.entries, key, t);
      var (b, verdict) := Spend(cfg, Find(room, key), t);
      (State(Put(room, key, b), swept.lastSweep), verdict)
  }

  // ---------- the source's object ----------

  class RateLimiter {
    const cfg: Config
    var entries: seq<Entry>
    var lastSweep: real

    function View(): State
      reads this
    {
      State(entries, lastSweep)
    }

    constructor (cfg: Config)
      ensures this.cfg == cfg && View() == State([], 0.0)
    {
      this.cfg := cfg;
      entries, lastSweep := [], 0.0;
    }

    method SweepInPlace(t: real)
      requires Enabled(cfg)
      modifies this`entries
      ensures entries == Sweep(cfg, old(entries), t)
    {
      var kept, i := [], 0;
      while i < |entries|
        invariant 0 <= i <= |entries| && entries == old(entries)
        invariant kept + Sweep(cfg, entries[i..], t) == Sweep(cfg, entries, t)
      {
        assert entries[i..][1..] == entries[i + 1..];
        if !FullyRefilled(cfg, entries[i].bucket, t) { kept := kept + [entries[i]]; }
        i := i + 1;
      }
      entries := kept;
    }

    method PeekNow(key: string, now: real) returns (v: Verdict)
      ensures v == Peek(cfg, View(), key, now)
    {
      if !Enabled(cfg) { return GRANTED; }
      var b := Find(entries, key);
      if b.None? { return GRANTED; }
      return Judge(cfg, TokensAt(cfg, b.value, now));
    }

    method TakeNow(key: string, now: real) returns (v: Verdict)
      modifies this
      ensures (View(), v) == Take(cfg, old(View()), key, now)
    {
      if !Enabled(cfg) { return GRANTED; }
      if now - lastSweep > SWEEP_EVERY_MS {
        SweepInPlace(now);
        lastSweep := now;
      }
      if Find(entries, key).None? {
        if |entries| >= cfg.maxBuckets {
          SweepInPlace(now);
          ghost var swept := entries;
          while |entries| >= cfg.maxBuckets && entries != []
            invariant Evict(entries, cfg.maxBuckets) == Evict(swept, cfg.maxBuckets)
            invariant lastSweep == AfterPeriodicSweep(cfg, old(View()), now).lastSweep
            decreases |entries|
          {
            entries := entries[1..];
          }
        }
      }
      var (b, verdict) := Spend(cfg, Find(entries, key), now);
      entries := Put(entries, key, b);
      return verdict;
    }
  }

  // ---------- the limiter that never forgets ----------

  type Ledger = map<string, Bucket>

  function Recall(m: Ledger, key: string): Option<Bucket> {
    if key in m then Some(m[key]) else None
  }

  function IdealTake(cfg: Config, m: Ledger, key: string, t: real): (Ledger, Verdict)
    requires Enabled(cfg)
  {
    var (b, verdict) := Spend(cfg, Recall(m, key), t);
    (m[key := b], verdict)
  }

  ghost predicate Sound(cfg: Config, m: Ledger, now: real) {
    forall k :: k in m ==> 0.0 <= m[k].tokens <= cfg.burst && m[k].last <= now
  }

  // Same buckets, except that the limiter may have dropped some that are full by `now`.
  ghost predicate Agree(cfg: Config, entries: seq<Entry>, m: Ledger, now: real) {
    && DistinctKeys(entries)
    && Sound(cfg, m, now)
    && forall k: string ::
         && (Find(entries, k).Some? ==> Recall(m, k) == Find(entries, k))
         && (Find(entries, k).None? && k in m ==> TokensAt(cfg, m[k], now) == cfg.burst)
  }

  lemma RefillPositive(cfg: Config)
    requires Enabled(cfg)
    ensures RefillPerMs(cfg) > 0.0
  {
  }

  lemma MulMonotone(a: real, b: real, r: real)
    requires r > 0.0
    ensures a <= b ==> a * r <= b * r
    ensures a < b ==> a * r < b * r
  {
  }

  lemma RefillFacts(cfg: Config, a: real, b: real)
    requires Enabled(cfg)
    ensures Refill(cfg, a + b) == Refill(cfg, a) + Refill(cfg, b)
    ensures a <= b ==> Refill(cfg, a) <= Refill(cfg, b)
    ensures a < b ==> Refill(cfg, a) < Refill(cfg, b)
    ensures Refill(cfg, 0.0) == 0.0
  {
    RefillPositive(cfg);
    MulMonotone(a, b, RefillPerMs(cfg));
  }

  lemma DivMul(x: real, r: real)
    requires r > 0.0
    ensures x / r * r == x
  {
  }

  // A bucket the sweep drops is full, and stays full.
  lemma RefilledIsFull(cfg: Config, b: Bucket, t: real)
    requires Enabled(cfg) && b.tokens >= 0.0
    requires FullyRefilled(cfg, b, t)
    ensures TokensAt(cfg, b, t) == cfg.burst
  {
    RefillPositive(cfg);
    DivMul(cfg.burst, RefillPerMs(cfg));
    RefillFacts(cfg, cfg.burst / RefillPerMs(cfg), t - b.last);
    assert Refill(cfg, cfg.burst / RefillPerMs(cfg)) == cfg.burst;
  }

  lemma TokensGrow(cfg: Config, b: Bucket, t: real, t': real)
    requires Enabled(cfg) && t <= t'
    ensures TokensAt(cfg, b, t) <= TokensAt(cfg, b, t') <= cfg.burst
  {
    RefillFacts(cfg, t - b.last, t' - b.last);
  }

  lemma HeadIsUnique(entries: seq<Entry>)
    requires DistinctKeys(entries) && entries != []
    ensures forall e :: e in entries[1..] ==> e.key != entries[0].key
    ensures DistinctKeys(entries[1..]) && Find(entries[1..], entries[0].key).None?
  {
    FindIsMember(entries[1..], entries[0].key);
    forall e | e in entries[1..] ensures e.key != entries[0].key {
      var i :| 0 <= i < |entries[1..]| && entries[1..][i] == e;
      assert entries[0].key != entries[i + 1].key;
    }
  }

  lemma DistinctCons(e: Entry, rest: seq<Entry>)
    requires DistinctKeys(rest) && forall x :: x in rest ==> x.key != e.key
    ensures DistinctKeys([e] + rest) && ([e] + rest)[1..] == rest
  {
  }

  lemma {:induction false} FindSweep(cfg: Config, entries: seq<Entry>, t: real, k: string)
    requires Enabled(cfg) && DistinctKeys(entries)
    ensures DistinctKeys(Sweep(cfg, entries, t)) && |Sweep(cfg, entries, t)| <= |entries|
    ensures forall e :: e in Sweep(cfg, entries, t) ==> e in entries
    ensures Find(Sweep(cfg, entries, t), k) ==
      match Find(entries, k)
      case None => None
      case Some(b) => if FullyRefilled(cfg, b, t) then None else Some(b)
  {
    if entries != [] {
      HeadIsUnique(entries);
      FindSweep(cfg, entries[1..], t, k);
      DistinctCons(entries[0], Sweep(cfg, entries[1..], t));
    }
  }

  lemma SweepAgrees(cfg: Config, entries: seq<Entry>, m: Ledger, t: real)
    requires Enabled(cfg) && Agree(cfg, entries, m, t)
    ensures Agree(cfg, Sweep(cfg, entries, t), m, t)
  {
    var swept := Sweep(cfg, entries, t);
    FindSweep(cfg, entries, t, "");
    forall k: string
      ensures Find(swept, k).Some? ==> Recall(m, k) == Find(swept, k)
      ensures Find(swept, k).None? && k in m ==> TokensAt(cfg, m[k], t) == cfg.burst
    {
      FindSweep(cfg, entries, t, k);
      if Find(entries, k).Some? && FullyRefilled(cfg, Find(entries, k).value, t) {
        RefilledIsFull(cfg, m[k], t);
      }
    }
  }

  lemma LaterAgrees(cfg: Config, entries: seq<Entry>, m: Ledger, t: real, t': real)
    requires Enabled(cfg) && Agree(cfg, entries, m, t) && t <= t'
    ensures Agree(cfg, entries, m, t')
  {
    forall k | Find(entries, k).None? && k in m ensures TokensAt(cfg, m[k], t') == cfg.burst {
      TokensGrow(cfg, m[k], t, t');
    }
  }

  // Spending from a dropped bucket and from its full original is the same.
  lemma SpendSame(cfg: Config, found: Option<Bucket>, recalled: Option<Bucket>, t: real)
    requires Enabled(cfg)
    requires found.Some? ==> recalled == found
    requires found.None? && recalled.Some? ==> TokensAt(cfg, recalled.value, t) == cfg.burst
    ensures Spend(cfg, found, t) == Spend(cfg, recalled, t)
  {
    if found.None? && recalled.Some? {
      var unseen := Bucket(cfg.burst, t);
      RefillFacts(cfg, 0.0, 0.0);
      assert TokensAt(cfg, unseen, t) == cfg.burst;
    }
  }

  lemma SpendIsSound(cfg: Config, found: Option<Bucket>, t: real)
    requires Enabled(cfg) && cfg.burst >= 0.0
    requires found.Some? ==> 0.0 <= found.value.tokens && found.value.last <= t
    ensures var (b, v) := Spend(cfg, found, t);
            0.0 <= b.tokens <= cfg.burst && b.last == t
  {
    RefillFacts(cfg, 0.0, if found.Some? then t - found.value.last else 0.0);
  }

  // A take that finds no room even after reclaiming full buckets drops a live one.
  predicate Evicts(cfg: Config, st: State, key: string, t: real) {
    Enabled(cfg) &&
    var swept := AfterPeriodicSweep(cfg, st, t).entries;
    Find(swept, key).None? && |swept| >= cfg.maxBuckets && |Sweep(cfg, swept, t)| >= cfg.maxBuckets
    && Sweep(cfg, swept, t) != []
  }

  lemma TakeAgrees(cfg: Config, st: State, m: Ledger, key: string, t: real)
    requires Enabled(cfg) && cfg.burst >= 0.0
    requires Agree(cfg, st.entries, m, t) && !Evicts(cfg, st, key, t)
    ensures var (st', v) := Take(cfg, st, key, t);
            var (m', w) := IdealTake(cfg, m, key, t);
            v == w && Agree(cfg, st'.entries, m', t)
  {
    var swept := AfterPeriodicSweep(cfg, st, t);
    SweepAgrees(cfg, st.entries, m, t);
    SweepAgrees(cfg, swept.entries, m, t);
    FindSweep(cfg, swept.entries, t, key);
    var room := MakeRoom(cfg, swept.entries, key, t);
    assert Agree(cfg, room, m, t);
    SpendSame(cfg, Find(room, key), Recall(m, key), t);
    SpendIsSound(cfg, Recall(m, key), t);
    PutAgrees(cfg, room, m, key, Spend(cfg, Recall(m, key), t).0, t);
  }

  lemma PutAgrees(cfg: Config, room: seq<Entry>, m: Ledger, key: string, b: Bucket, t: real)
    requires Agree(cfg, room, m, t) && 0.0 <= b.tokens <= cfg.burst && b.last <= t
    ensures Agree(cfg, Put(room, key, b), m[key := b], t)
  {
    PutShape(room, key, b);
    forall k: string
      ensures Find(Put(room, key, b), k) == if k == key then Some(b) else Find(room, k)
    {
      FindPut(room, key, b, k);
    }
  }

  // ---------- whole runs ----------

  predicate Ordered(reqs: seq<Request>, now: real) {
    reqs == [] || (now <= reqs[0].at && Ordered(reqs[1..], reqs[0].at))
  }

  function Run(cfg: Config, st: State, reqs: seq<Request>): seq<Verdict>
    decreases |reqs|
  {
    if reqs == [] then []
    else
      var (st', v) := Take(cfg, st, reqs[0].key, reqs[0].at);
      [v] + Run(cfg, st', reqs[1..])
  }

  predicate NoEviction(cfg: Config, st: State, reqs: seq<Request>)
    decreases |reqs|
  {
    reqs == [] ||
    (!Evicts(cfg, st, reqs[0].key, reqs[0].at) &&
     NoEviction(cfg, Take(cfg, st, reqs[0].key, reqs[0].at).0, reqs[1..]))
  }

  function IdealRun(cfg: Config, m: Ledger, reqs: seq<Request>): seq<Verdict>
    requires Enabled(cfg)
    decreases |reqs|
  {
    if reqs == [] then []
    else
      var (m', v) := IdealTake(cfg, m, reqs[0].key, reqs[0].at);
      [v] + IdealRun(cfg, m', reqs[1..])
  }

  lemma {:induction false} RunsAgree(cfg: Config, st: State, m: Ledger, now: real, reqs: seq<Request>)
    requires Enabled(cfg) && cfg.burst >= 0.0 && Agree(cfg, st.entries, m, now)
    requires Ordered(reqs, now) && NoEviction(cfg, st, reqs)
    ensures Run(cfg, st, reqs) == IdealRun(cfg, m, reqs)
    decreases |reqs|
  {
    if reqs != [] {
      var r := reqs[0];
      LaterAgrees(cfg, st.entries, m, now, r.at);
      TakeAgrees(cfg, st, m, r.key, r.at);
      RunsAgree(cfg, Take(cfg, st, r.key, r.at).0, IdealTake(cfg, m, r.key, r.at).0, r.at, reqs[1..]);
    }
  }

  // For any interleaving of keys, forgetting full buckets changes no verdict.
  lemma SweepingIsInvisible(cfg: Config, now: real, reqs: seq<Request>)
    requires Enabled(cfg) && cfg.burst >= 0.0 && Ordered(reqs, now)
    requires NoEviction(cfg, State([], 0.0), reqs)
    ensures Run(cfg, State([], 0.0), reqs) == IdealRun(cfg, map[], reqs)
  {
    RunsAgree(cfg, State([], 0.0), map[], now, reqs);
  }

  // ---------- the rate one key gets ----------

  function Granteds(verdicts: seq<Verdict>, reqs: seq<Request>, key: string): nat
    requires |verdicts| == |reqs|
  {
    if reqs == [] then 0
    else (if reqs[0].key == key && verdicts[0].allowed then 1 else 0) + Granteds(verdicts[1..], reqs[1..], key)
  }

  lemma {:induction false} IdealRunLength(cfg: Config, m: Ledger, reqs: seq<Request>)
    requires Enabled(cfg)
    ensures |IdealRun(cfg, m, reqs)| == |reqs|
    decreases |reqs|
  {
    if reqs != [] { IdealRunLength(cfg, IdealTake(cfg, m, reqs[0].key, reqs[0].at).0, reqs[1..]); }
  }

  // What a key could spend at `t`.
  function Available(cfg: Config, m: Ledger, key: string, t: real): real {
    if key in m then TokensAt(cfg, m[key], t) else cfg.burst
  }

  lemma AvailableGrowth(cfg: Config, m: Ledger, key: string, t: real, t': real)
    requires Enabled(cfg) && t <= t'
    ensures Available(cfg, m, key, t') <= Available(cfg, m, key, t) + Refill(cfg, t' - t)
  {
    RefillFacts(cfg, 0.0, t' - t);
    if key in m {
      RefillFacts(cfg, t - m[key].last, t' - t);
      assert t' - m[key].last == t - m[key].last + (t' - t);
    }
  }

  lemma SpendCosts(cfg: Config, m: Ledger, key: string, k: string, t: real)
    requires Enabled(cfg)
    ensures var (m', v) := IdealTake(cfg, m, k, t);
            Available(cfg, m', key, t) + (if k == key && v.allowed then 1.0 else 0.0) <= Available(cfg, m, key, t)
  {
    RefillFacts(cfg, 0.0, 0.0);
    assert t - t == 0.0;
  }

  lemma {:induction false} TokensAccount(cfg: Config, m: Ledger, now: real, reqs: seq<Request>, key: string, end: real)
    requires Enabled(cfg) && cfg.burst >= 0.0 && Sound(cfg, m, now) && Ordered(reqs, now) && now <= end
    requires reqs == [] || reqs[|reqs| - 1].at <= end
    ensures |IdealRun(cfg, m, reqs)| == |reqs|
    ensures Granteds(IdealRun(cfg, m, reqs), reqs, key) as real
         <= Available(cfg, m, key, now) + Refill(cfg, end - now)
    decreases |reqs|
  {
    IdealRunLength(cfg, m, reqs);
    RefillFacts(cfg, 0.0, end - now);
    if reqs == [] {
      if key in m { RefillFacts(cfg, 0.0, now - m[key].last); }
    } else {
      var q := reqs[0];
      var (m', v) := IdealTake(cfg, m, q.key, q.at);
      AvailableGrowth(cfg, m, key, now, q.at);
      SpendCosts(cfg, m, key, q.key, q.at);
      SpendIsSound(cfg, Recall(m, q.key), q.at);
      OrderedEnd(reqs, now);
      TokensAccount(cfg, m', q.at, reqs[1..], key, end);
      RefillFacts(cfg, q.at - now, end - q.at);
      assert end - now == q.at - now + (end - q.at);
      assert IdealRun(cfg, m, reqs)[1..] == IdealRun(cfg, m', reqs[1..]);
    }
  }

  lemma {:induction false} OrderedEnd(reqs: seq<Request>, now: real)
    requires Ordered(reqs, now) && reqs != []
    ensures now <= reqs[0].at <= reqs[|reqs| - 1].at
    ensures forall i :: 0 <= i < |reqs| ==> now <= reqs[i].at
  {
    if |reqs| > 1 { OrderedEnd(reqs[1..], reqs[0].at); }
  }

  function IdealAfter(cfg: Config, m: Ledger, reqs: seq<Request>): Ledger
    requires Enabled(cfg)
    decreases |reqs|
  {
    if reqs == [] then m else IdealAfter(cfg, IdealTake(cfg, m, reqs[0].key, reqs[0].at).0, reqs[1..])
  }

  lemma {:induction false} IdealRunSplits(cfg: Config, m: Ledger, a: seq<Request>, b: seq<Request>)
    requires Enabled(cfg)
    ensures IdealRun(cfg, m, a + b) == IdealRun(cfg, m, a) + IdealRun(cfg, IdealAfter(cfg, m, a), b)
    ensures |IdealRun(cfg, m, a)| == |a|
    decreases |a|
  {
    if a == [] {
      assert a + b == b;
    } else {
      assert (a + b)[0] == a[0] && (a + b)[1..] == a[1..] + b;
      IdealRunSplits(cfg, IdealTake(cfg, m, a[0].key, a[0].at).0, a[1..], b);
    }
  }

  lemma {:induction false} AfterIsSound(cfg: Config, m: Ledger, now: real, a: seq<Request>, b: seq<Request>)
    requires Enabled(cfg) && cfg.burst >= 0.0 && Sound(cfg, m, now) && b != [] && Ordered(a + b, now)
    ensures Sound(cfg, IdealAfter(cfg, m, a), b[0].at) && Ordered(b, b[0].at)
    decreases |a|
  {
    if a == [] {
      assert a + b == b;
    } else {
      assert (a + b)[0] == a[0] && (a + b)[1..] == a[1..] + b;
      SpendIsSound(cfg, Recall(m, a[0].key), a[0].at);
      AfterIsSound(cfg, IdealTake(cfg, m, a[0].key, a[0].at).0, a[0].at, a[1..], b);
    }
  }

  lemma {:induction false} OrderedPrefix(a: seq<Request>, b: seq<Request>, now: real)
    requires Ordered(a + b, now)
    ensures Ordered(a, now)
  {
    if a != [] {
      assert (a + b)[0] == a[0] && (a + b)[1..] == a[1..] + b;
      OrderedPrefix(a[1..], b, a[0].at);
    }
  }

  // In any stretch of a run, one key is granted at most its burst plus what refilled meanwhile.
  lemma WindowBound(cfg: Config, now: real, before: seq<Request>, window: seq<Request>, rest: seq<Request>, key: string)
    requires Enabled(cfg) && cfg.burst >= 0.0 && window != []
    requires Ordered(before + (window + rest), now)
    requires NoEviction(cfg, State([], 0.0), before + (window + rest))
    ensures var verdicts := Run(cfg, State([], 0.0), before + (window + rest));
            && |verdicts| == |before| + |window| + |rest|
            && Granteds(verdicts[|before|..|before| + |window|], window, key) as real
               <= cfg.burst + Refill(cfg, window[|window| - 1].at - window[0].at)
  {
    SweepingIsInvisible(cfg, now, before + (window + rest));
    var m := IdealAfter(cfg, map[], before);
    IdealRunSplits(cfg, map[], before, window + rest);
    IdealRunSplits(cfg, m, window, rest);
    IdealRunLength(cfg, IdealAfter(cfg, m, window), rest);
    MiddleSlice(IdealRun(cfg, map[], before), IdealRun(cfg, m, window),
                IdealRun(cfg, IdealAfter(cfg, m, window), rest));
    AfterIsSound(cfg, map[], now, before, window + rest);
    assert (window + rest)[0] == window[0];
    IdealWindow(cfg, m, window, rest, key);
  }

  lemma MiddleSlice(a: seq<Verdict>, b: seq<Verdict>, c: seq<Verdict>)
    ensures (a + (b + c))[|a|..|a| + |b|] == b
  {
  }

  lemma IdealWindow(cfg: Config, m: Ledger, window: seq<Request>, rest: seq<Request>, key: string)
    requires Enabled(cfg) && cfg.burst >= 0.0 && window != []
    requires Sound(cfg, m, window[0].at) && Ordered(window + rest, window[0].at)
    ensures |IdealRun(cfg, m, window)| == |window|
    ensures Granteds(IdealRun(cfg, m, window), window, key) as real
         <= cfg.burst + Refill(cfg, window[|window| - 1].at - window[0].at)
  {
    var start, end := window[0].at, window[|window| - 1].at;
    OrderedPrefix(window, rest, start);
    OrderedEnd(window, start);
    TokensAccount(cfg, m, start, window, key, end);
    AvailableCap(cfg, m, key, start);
  }

  lemma AvailableCap(cfg: Config, m: Ledger, key: string, t: real)
    ensures Available(cfg, m, key, t) <= cfg.burst
  {
  }

  // ---------- peek, waiting, size ----------

  // Every state a run without eviction reaches agrees with the ledger that never forgets.
  lemma {:induction false} ReachableAgrees(cfg: Config, st: State, m: Ledger, now: real, reqs: seq<Request>, end: real)
    requires Enabled(cfg) && cfg.burst >= 0.0 && Agree(cfg, st.entries, m, now) && now <= end
    requires Ordered(reqs, now) && NoEviction(cfg, st, reqs) && (reqs == [] || reqs[|reqs| - 1].at <= end)
    ensures Agree(cfg, After(cfg, st, reqs).entries, IdealAfter(cfg, m, reqs), end)
    decreases |reqs|
  {
    if reqs == [] {
      LaterAgrees(cfg, st.entries, m, now, end);
    } else {
      var r := reqs[0];
      OrderedEnd(reqs, now);
      LaterAgrees(cfg, st.entries, m, now, r.at);
      TakeAgrees(cfg, st, m, r.key, r.at);
      ReachableAgrees(cfg, Take(cfg, st, r.key, r.at).0, IdealTake(cfg, m, r.key, r.at).0, r.at, reqs[1..], end);
    }
  }

  // peek foretells take, except for a key without a bucket when not even a full bucket holds a token.
  lemma PeekAgreesWithTake(cfg: Config, st: State, m: Ledger, key: string, t: real)
    requires Agree(cfg, st.entries, m, t)
    ensures Peek(cfg, st, key, t) == Take(cfg, st, key, t).1
       <==> !Enabled(cfg) || Find(st.entries, key).Some? || cfg.burst >= 1.0
  {
    if Enabled(cfg) {
      var swept := AfterPeriodicSweep(cfg, st, t).entries;
      SweepAgrees(cfg, st.entries, m, t);
      FindSweep(cfg, st.entries, t, key);
      var found := Find(st.entries, key);
      if found.None? {
        UnseenIsFull(cfg, t);
        FindSweep(cfg, swept, t, key);
        EvictSubset(Sweep(cfg, swept, t), cfg.maxBuckets, key);
      } else if Find(swept, key).None? {
        RefilledIsFull(cfg, m[key], t);
        FindSweep(cfg, swept, t, key);
        EvictSubset(Sweep(cfg, swept, t), cfg.maxBuckets, key);
        SpendSame(cfg, None, found, t);
      }
    }
  }

  lemma UnseenIsFull(cfg: Config, t: real)
    requires Enabled(cfg)
    ensures TokensAt(cfg, Bucket(cfg.burst, t), t) == cfg.burst
  {
    RefillFacts(cfg, 0.0, 0.0);
    assert t - t == 0.0;
  }

  lemma {:induction false} EvictSubset(entries: seq<Entry>, maxBuckets: int, key: string)
    ensures Find(entries, key).None? ==> Find(Evict(entries, maxBuckets), key).None?
  {
    if |entries| >= maxBuckets && entries != [] { EvictSubset(entries[1..], maxBuckets, key); }
  }

  lemma CeilBounds(x: real, n: int)
    ensures Ceil(x) <= n <==> x <= n as real
  {
  }

  // A refused key waits exactly as told: a take n whole seconds later succeeds if and only if n is at
  // least retryAfter and a full bucket holds a token at all.
  lemma RetryAfterIsLeast(cfg: Config, st: State, m: Ledger, key: string, t: real, n: nat)
    requires Enabled(cfg) && cfg.burst >= 0.0 && Agree(cfg, st.entries, m, t) && !Evicts(cfg, st, key, t)
    requires !Take(cfg, st, key, t).1.allowed
    ensures var (st', refusal) := Take(cfg, st, key, t);
            Take(cfg, st', key, t + n as real * 1000.0).1.allowed <==> refusal.retryAfter <= n && cfg.burst >= 1.0
  {
    var (m', _) := IdealTake(cfg, m, key, t);
    TakeAgrees(cfg, st, m, key, t);
    KeyIsKept(cfg, st, key, t);
    RefillFacts(cfg, 0.0, n as real * 1000.0);
    TakeLater(cfg, Take(cfg, st, key, t).0, m', key, t, t + n as real * 1000.0);
    WaitIsEnough(cfg, m'[key], t, n);
  }

  lemma KeyIsKept(cfg: Config, st: State, key: string, t: real)
    requires Enabled(cfg)
    ensures Find(Take(cfg, st, key, t).0.entries, key).Some?
  {
    var room := MakeRoom(cfg, AfterPeriodicSweep(cfg, st, t).entries, key, t);
    FindPut(room, key, Spend(cfg, Find(room, key), t).0, key);
  }

  // After a take the key's own bucket decides the next one, kept or dropped as full.
  lemma TakeLater(cfg: Config, st: State, m: Ledger, key: string, t: real, later: real)
    requires Enabled(cfg) && Agree(cfg, st.entries, m, t) && t <= later
    requires Find(st.entries, key).Some?
    ensures Take(cfg, st, key, later).1 == Judge(cfg, TokensAt(cfg, m[key], later))
  {
    LaterAgrees(cfg, st.entries, m, t, later);
    PeekAgreesWithTake(cfg, st, m, key, later);
  }

  lemma WaitIsEnough(cfg: Config, b: Bucket, t: real, n: nat)
    requires Enabled(cfg) && b.last == t && b.tokens < 1.0
    ensures TokensAt(cfg, b, t + n as real * 1000.0) >= 1.0
       <==> Ceil((1.0 - b.tokens) / RefillPerMs(cfg) / 1000.0) <= n && cfg.burst >= 1.0
  {
    var r, missing, wait := RefillPerMs(cfg), 1.0 - b.tokens, n as real * 1000.0;
    RefillPositive(cfg);
    CeilBounds(missing / r / 1000.0, n);
    DivideAtMost(missing, r, wait);
    assert missing / r / 1000.0 <= n as real <==> missing / r <= wait;
    assert t + wait - b.last == wait;
  }

  lemma DivideAtMost(x: real, r: real, y: real)
    requires r > 0.0
    ensures x / r <= y <==> x <= y * r
  {
    DivMul(x, r);
    MulMonotone(x / r, y, r);
    MulMonotone(y, x / r, r);
  }

  // ---------- the bound on memory ----------

  lemma {:induction false} EvictBound(entries: seq<Entry>, maxBuckets: int)
    requires DistinctKeys(entries)
    ensures DistinctKeys(Evict(entries, maxBuckets)) && |Evict(entries, maxBuckets)| <= |entries|
    ensures |Evict(entries, maxBuckets)| < maxBuckets || Evict(entries, maxBuckets) == []
  {
    if |entries| >= maxBuckets && entries != [] { EvictBound(entries[1..], maxBuckets); }
  }

  function Limit(cfg: Config): int { if cfg.maxBuckets >= 1 then cfg.maxBuckets else 1 }

  lemma TakeKeepsSize(cfg: Config, st: State, key: string, t: real)
    requires DistinctKeys(st.entries) && |st.entries| <= Limit(cfg)
    ensures var st' := Take(cfg, st, key, t).0;
            DistinctKeys(st'.entries) && |st'.entries| <= Limit(cfg)
    ensures Enabled(cfg) ==> Take(cfg, st, key, t).0.entries != []
  {
    if Enabled(cfg) {
      FindSweep(cfg, st.entries, t, key);
      var swept := AfterPeriodicSweep(cfg, st, t).entries;
      FindSweep(cfg, swept, t, key);
      EvictBound(Sweep(cfg, swept, t), cfg.maxBuckets);
      EvictSubset(Sweep(cfg, swept, t), cfg.maxBuckets, key);
      var room := MakeRoom(cfg, swept, key, t);
      PutShape(room, key, Spend(cfg, Find(room, key), t).0);
    }
  }

  function After(cfg: Config, st: State, reqs: seq<Request>): State
    decreases |reqs|
  {
    if reqs == [] then st else After(cfg, Take(cfg, st, reqs[0].key, reqs[0].at).0, reqs[1..])
  }

  lemma {:induction false} SizeStaysBounded(cfg: Config, st: State, reqs: seq<Request>)
    requires DistinctKeys(st.entries) && |st.entries| <= Limit(cfg)
    ensures |After(cfg, st, reqs).entries| <= Limit(cfg)
    ensures Enabled(cfg) && reqs != [] ==> After(cfg, st, reqs).entries != []
    decreases |reqs|
  {
    if reqs != [] {
      TakeKeepsSize(cfg, st, reqs[0].key, reqs[0].at);
      SizeStaysBounded(cfg, Take(cfg, st, reqs[0].key, reqs[0].at).0, reqs[1..]);
    }
  }

  // Whatever the clock does, the ceiling holds after every take exactly when it leaves room for one bucket.
  lemma CeilingHoldsIff(cfg: Config, reqs: seq<Request>)
    requires Enabled(cfg) && reqs != []
    ensures cfg.maxBuckets >= 1 ==> |After(cfg, State([], 0.0), reqs).entries| <= cfg.maxBuckets
    ensures cfg.maxBuckets < 1 ==> |After(cfg, State([], 0.0), reqs).entries| > cfg.maxBuckets
  {
    SizeStaysBounded(cfg, State([], 0.0), reqs);
  }
}
