// Which buckets a take forgets: those that have refilled when it sweeps, and under pressure the oldest of
// the others, no more than it takes to make room for one.
module RateOrder {
  import opened Wrappers
  import opened RateLimit

  // As much has come back since its last use as a bucket holds.
  predicate Idle(cfg: Config, e: Entry, t: real) { (t - e.bucket.last) * cfg.rpm > cfg.burst * 60_000.0 }

  // How many of the entries from place `i` on are not idle.
  function LiveFrom(cfg: Config, entries: seq<Entry>, i: nat, t: real): nat
    requires i <= |entries|
    decreases |entries| - i
  {
    if i == |entries| then 0 else (if Idle(cfg, entries[i], t) then 0 else 1) + LiveFrom(cfg, entries, i + 1, t)
  }

  predicate SweepIsDue(st: State, t: real) { t - st.lastSweep > 60_000.0 }

  // The entries that are left when a sweep was due and done.
  function CountNow(cfg: Config, st: State, t: real): nat {
    if SweepIsDue(st, t) then LiveFrom(cfg, st.entries, 0, t) else |st.entries|
  }

  predicate KeyIsThere(cfg: Config, st: State, key: string, t: real) {
    exists j :: 0 <= j < |st.entries| && st.entries[j].key == key && !(SweepIsDue(st, t) && Idle(cfg, st.entries[j], t))
  }

  // A key without a bucket, and no room for one more.
  predicate NeedsRoom(cfg: Config, st: State, key: string, t: real) {
    !KeyIsThere(cfg, st, key, t) && CountNow(cfg, st, t) >= cfg.maxBuckets
  }

  // ---------- sweeping ----------

  lemma IdleIsRefilled(cfg: Config, e: Entry, t: real)
    requires Enabled(cfg)
    ensures FullyRefilled(cfg, e.bucket, t) <==> Idle(cfg, e, t)
  {
    var d, r := t - e.bucket.last, RefillPerMs(cfg);
    assert r > 0.0 && r * 60_000.0 == cfg.rpm;
    DivideMore(d, cfg.burst, r);
    assert d * cfg.rpm == d * r * 60_000.0;
  }

  lemma DivideMore(d: real, b: real, r: real)
    requires r > 0.0
    ensures d > b / r <==> d * r > b
  {
    DivMul(b, r);
    MulMonotone(b / r, d, r);
    MulMonotone(d, b / r, r);
  }

  lemma {:induction false} SweepKeepsLive(cfg: Config, entries: seq<Entry>, t: real)
    requires Enabled(cfg)
    ensures forall e :: e in Sweep(cfg, entries, t) <==> e in entries && !Idle(cfg, e, t)
    ensures Sweep(cfg, Sweep(cfg, entries, t), t) == Sweep(cfg, entries, t)
  {
    hide Idle, FullyRefilled;
    if entries != [] {
      IdleIsRefilled(cfg, entries[0], t);
      SweepKeepsLive(cfg, entries[1..], t);
      assert entries == [entries[0]] + entries[1..];
      assert ([entries[0]] + Sweep(cfg, entries[1..], t))[1..] == Sweep(cfg, entries[1..], t);
    }
  }

  lemma {:induction false} SweepSplits(cfg: Config, a: seq<Entry>, b: seq<Entry>, t: real)
    requires Enabled(cfg)
    ensures Sweep(cfg, a + b, t) == Sweep(cfg, a, t) + Sweep(cfg, b, t)
  {
    hide FullyRefilled;
    if a == [] {
      assert a + b == b;
    } else {
      assert (a + b)[1..] == a[1..] + b;
      SweepSplits(cfg, a[1..], b, t);
    }
  }

  lemma {:induction false} SweepCounts(cfg: Config, entries: seq<Entry>, i: nat, t: real)
    requires Enabled(cfg) && i <= |entries|
    ensures |Sweep(cfg, entries[i..], t)| == LiveFrom(cfg, entries, i, t)
    decreases |entries| - i
  {
    hide FullyRefilled, Idle;
    if i < |entries| {
      IdleIsRefilled(cfg, entries[i], t);
      SweepCounts(cfg, entries, i + 1, t);
      assert entries[i..][1..] == entries[i + 1..];
    }
  }

  // ---------- evicting ----------

  // The newest are kept, one fewer than the limit.
  lemma {:induction false} EvictKeepsNewest(entries: seq<Entry>, max: int)
    ensures var keep := if max <= 0 then 0 else if |entries| < max then |entries| else max - 1;
      Evict(entries, max) == entries[|entries| - keep..]
    decreases |entries|
  {
    if |entries| >= max && entries != [] {
      EvictKeepsNewest(entries[1..], max);
    }
  }

  lemma KeptFrom(entries: seq<Entry>, n: nat, p: nat)
    requires DistinctKeys(entries) && n <= |entries| && p < |entries|
    ensures entries[p] in entries[n..] <==> n <= p
  {
    if n <= p { assert entries[n..][p - n] == entries[p]; }
    if entries[p] in entries[n..] {
      var q :| 0 <= q < |entries[n..]| && entries[n..][q] == entries[p];
      assert entries[n + q].key == entries[p].key;
    }
  }

  // A live entry survives exactly when it is among the newest live ones there is room for.
  lemma SurvivesExactly(cfg: Config, entries: seq<Entry>, i: nat, t: real)
    requires Enabled(cfg) && DistinctKeys(entries) && i < |entries|
    ensures entries[i] in Evict(Sweep(cfg, entries, t), cfg.maxBuckets)
       <==> !Idle(cfg, entries[i], t) && LiveFrom(cfg, entries, i, t) < cfg.maxBuckets
  {
    hide Idle, FullyRefilled, Sweep, Evict, DistinctKeys;
    var live, max := Sweep(cfg, entries, t), cfg.maxBuckets;
    var keep := if max <= 0 then 0 else if |live| < max then |live| else max - 1;
    EvictKeepsNewest(live, max);
    SweepKeepsLive(cfg, entries, t);
    assert forall e :: e in live[|live| - keep..] ==> e in live;
    if !Idle(cfg, entries[i], t) {
      SweepDistinct(cfg, entries, t);
      var p := PlaceOf(cfg, entries, i, t);
      KeptFrom(live, |live| - keep, p);
    }
  }

  lemma SweepDistinct(cfg: Config, entries: seq<Entry>, t: real)
    requires Enabled(cfg) && DistinctKeys(entries)
    ensures DistinctKeys(Sweep(cfg, entries, t))
  {
    FindSweep(cfg, entries, t, "");
  }

  lemma PlaceOf(cfg: Config, entries: seq<Entry>, i: nat, t: real) returns (p: nat)
    requires Enabled(cfg) && i < |entries| && !Idle(cfg, entries[i], t)
    ensures var live := Sweep(cfg, entries, t);
      && p < |live| && live[p] == entries[i] && |live| - p == LiveFrom(cfg, entries, i, t)
  {
    hide Idle, FullyRefilled;
    SweepSplits(cfg, entries[..i], entries[i..], t);
    assert entries == entries[..i] + entries[i..];
    SweepCounts(cfg, entries, i, t);
    IdleIsRefilled(cfg, entries[i], t);
    p := |Sweep(cfg, entries[..i], t)|;
    assert Sweep(cfg, entries[i..], t)[0] == entries[i];
  }

  // ---------- one take ----------

  lemma {:induction false} FindIsThere(entries: seq<Entry>, key: string)
    ensures Find(entries, key).None? <==> forall j :: 0 <= j < |entries| ==> entries[j].key != key
  {
    FindIsMember(entries, key);
  }

  // What is left when a sweep was due and done.
  lemma AfterDueSweep(cfg: Config, st: State, key: string, t: real)
    requires Enabled(cfg) && DistinctKeys(st.entries)
    ensures var swept := AfterPeriodicSweep(cfg, st, t).entries;
      && |swept| == CountNow(cfg, st, t)
      && (Find(swept, key).Some? <==> KeyIsThere(cfg, st, key, t))
      && Sweep(cfg, swept, t) == Sweep(cfg, st.entries, t) && DistinctKeys(swept)
  {
    hide Idle, FullyRefilled, Find, Sweep, DistinctKeys;
    var swept := AfterPeriodicSweep(cfg, st, t).entries;
    FindIsThere(swept, key);
    if SweepIsDue(st, t) {
      SweepKeepsLive(cfg, st.entries, t);
      SweepDistinct(cfg, st.entries, t);
      SweepCounts(cfg, st.entries, 0, t);
      assert st.entries[0..] == st.entries;
      if j :| 0 <= j < |swept| && swept[j].key == key { assert swept[j] in st.entries; }
      if j :| 0 <= j < |st.entries| && st.entries[j].key == key && !Idle(cfg, st.entries[j], t) {
        assert st.entries[j] in swept;
      }
    }
  }

  lemma {:induction false} PutOthers(entries: seq<Entry>, key: string, b: Bucket, e: Entry)
    requires DistinctKeys(entries) && e.key != key
    ensures e in Put(entries, key, b) <==> e in entries
  {
    if entries != [] {
      PutOthers(entries[1..], key, b, e);
      assert entries == [entries[0]] + entries[1..];
    }
  }

  // Another key's bucket is forgotten exactly when it has refilled by a sweep that is due or needed, or
  // when room is needed and too many live ones are newer; otherwise it stays as it is.
  lemma ForgottenExactly(cfg: Config, st: State, key: string, t: real, i: nat)
    requires Enabled(cfg) && DistinctKeys(st.entries) && i < |st.entries| && st.entries[i].key != key
    ensures var e := st.entries[i];
      var after := Take(cfg, st, key, t).0.entries;
      && (e in after
          <==> && !((SweepIsDue(st, t) || NeedsRoom(cfg, st, key, t)) && Idle(cfg, e, t))
               && !(NeedsRoom(cfg, st, key, t) && LiveFrom(cfg, st.entries, i, t) >= cfg.maxBuckets))
      && forall b :: Entry(e.key, b) in after ==> b == e.bucket
  {
    hide Idle, FullyRefilled, Find, Sweep, Evict, Put, Spend, DistinctKeys, CountNow, KeyIsThere;
    var e, swept := st.entries[i], AfterPeriodicSweep(cfg, st, t);
    var room := MakeRoom(cfg, swept.entries, key, t);
    AfterDueSweep(cfg, st, key, t);
    SweepKeepsLive(cfg, st.entries, t);
    SurvivesExactly(cfg, st.entries, i, t);
    RoomIsOld(cfg, st, key, t);
    PutOthers(room, key, Spend(cfg, Find(room, key), t).0, e);
    forall b | Entry(e.key, b) in Take(cfg, st, key, t).0.entries ensures b == e.bucket {
      PutOthers(room, key, Spend(cfg, Find(room, key), t).0, Entry(e.key, b));
      SameKey(st.entries, i, Entry(e.key, b));
    }
  }

  lemma SameKey(entries: seq<Entry>, i: nat, e: Entry)
    requires DistinctKeys(entries) && i < |entries| && e in entries && e.key == entries[i].key
    ensures e == entries[i]
  {
  }

  lemma RoomIsOld(cfg: Config, st: State, key: string, t: real)
    requires Enabled(cfg) && DistinctKeys(st.entries)
    ensures var room := MakeRoom(cfg, AfterPeriodicSweep(cfg, st, t).entries, key, t);
      DistinctKeys(room) && forall e :: e in room ==> e in st.entries
  {
    hide Idle, FullyRefilled, Find, Sweep, Evict, DistinctKeys;
    AfterDueSweep(cfg, st, key, t);
    SweepKeepsLive(cfg, st.entries, t);
    SweepDistinct(cfg, st.entries, t);
    var live := Sweep(cfg, st.entries, t);
    EvictKeepsNewest(live, cfg.maxBuckets);
    SuffixDistinct(live, |live| - |Evict(live, cfg.maxBuckets)|);
  }

  lemma SuffixDistinct(entries: seq<Entry>, n: nat)
    requires DistinctKeys(entries) && n <= |entries|
    ensures DistinctKeys(entries[n..]) && forall e :: e in entries[n..] ==> e in entries
  {
  }

  // ---------- the order of the buckets ----------

  lemma {:induction false} PutPlaces(entries: seq<Entry>, key: string, b: Bucket)
    ensures Find(entries, key).None? ==> Put(entries, key, b) == entries + [Entry(key, b)]
    ensures Find(entries, key).Some? ==>
      && |Put(entries, key, b)| == |entries|
      && forall p :: 0 <= p < |entries| ==> Put(entries, key, b)[p].key == entries[p].key
  {
    if entries != [] { PutPlaces(entries[1..], key, b); }
  }

  predicate InOrder(entries: seq<Entry>, a: Entry, b: Entry) {
    exists p, q :: 0 <= p < q < |entries| && entries[p] == a && entries[q] == b
  }

  lemma {:induction false} LiveFromFalls(cfg: Config, entries: seq<Entry>, i: nat, j: nat, t: real)
    requires i < j <= |entries| && !Idle(cfg, entries[i], t)
    ensures LiveFrom(cfg, entries, i, t) > LiveFrom(cfg, entries, j, t)
    decreases j - i
  {
    hide Idle;
    if i + 1 < j { LiveFromOnly(cfg, entries, i + 1, j, t); }
  }

  lemma {:induction false} LiveFromOnly(cfg: Config, entries: seq<Entry>, i: nat, j: nat, t: real)
    requires i <= j <= |entries|
    ensures LiveFrom(cfg, entries, i, t) >= LiveFrom(cfg, entries, j, t)
    decreases j - i
  {
    if i < j { LiveFromOnly(cfg, entries, i + 1, j, t); }
  }

  lemma SweptInOrder(cfg: Config, entries: seq<Entry>, i: nat, j: nat, t: real)
    requires Enabled(cfg) && i < j < |entries| && !Idle(cfg, entries[i], t) && !Idle(cfg, entries[j], t)
    ensures InOrder(Sweep(cfg, entries, t), entries[i], entries[j])
  {
    hide Idle, Sweep;
    var p := PlaceOf(cfg, entries, i, t);
    var q := PlaceOf(cfg, entries, j, t);
    LiveFromFalls(cfg, entries, i, j, t);
  }

  lemma SuffixInOrder(entries: seq<Entry>, n: nat, a: Entry, b: Entry)
    requires DistinctKeys(entries) && n <= |entries| && InOrder(entries, a, b) && a in entries[n..] && b in entries[n..]
    ensures InOrder(entries[n..], a, b)
  {
    hide DistinctKeys;
    var p, q :| 0 <= p < q < |entries| && entries[p] == a && entries[q] == b;
    KeptFrom(entries, n, p);
    KeptFrom(entries, n, q);
    assert entries[n..][p - n] == a && entries[n..][q - n] == b;
  }

  lemma ListedInOrder(entries: seq<Entry>, i: nat, j: nat)
    requires i < j < |entries|
    ensures InOrder(entries, entries[i], entries[j])
  {
  }

  lemma RoomInOrder(cfg: Config, st: State, key: string, t: real, i: nat, j: nat)
    requires Enabled(cfg) && DistinctKeys(st.entries) && i < j < |st.entries|
    ensures var room := MakeRoom(cfg, AfterPeriodicSweep(cfg, st, t).entries, key, t);
      st.entries[i] in room && st.entries[j] in room ==> InOrder(room, st.entries[i], st.entries[j])
  {
    hide Idle, FullyRefilled, Find, Sweep, Evict, DistinctKeys, InOrder;
    var room := MakeRoom(cfg, AfterPeriodicSweep(cfg, st, t).entries, key, t);
    var a, b := st.entries[i], st.entries[j];
    var live := Sweep(cfg, st.entries, t);
    ListedInOrder(st.entries, i, j);
    AfterDueSweep(cfg, st, key, t);
    SweepKeepsLive(cfg, st.entries, t);
    SweepDistinct(cfg, st.entries, t);
    EvictKeepsNewest(live, cfg.maxBuckets);
    if a in room && b in room && room != st.entries {
      var n := |live| - |room|;
      assert a in live && b in live;
      SweptInOrder(cfg, st.entries, i, j, t);
      assert live[0..] == live;
      SuffixInOrder(live, n, a, b);
    }
  }

  // The others keep their order, a key that has a bucket keeps its place among them, and a new key comes last.
  lemma OrderIsKept(cfg: Config, st: State, key: string, t: real, i: nat, j: nat)
    requires Enabled(cfg) && DistinctKeys(st.entries) && i < j < |st.entries|
    ensures var after := Take(cfg, st, key, t).0.entries;
      && (StillThere(cfg, st, key, t, i) && StillThere(cfg, st, key, t, j) ==>
            KeysInOrder(after, st.entries[i].key, st.entries[j].key))
      && (!KeyIsThere(cfg, st, key, t) ==>
            && after != [] && after[|after| - 1].key == key
            && forall p :: 0 <= p < |after| - 1 ==> after[p].key != key)
  {
    hide Idle, FullyRefilled, Find, Sweep, Evict, Put, Spend, DistinctKeys, KeyIsThere, InOrder;
    var room := MakeRoom(cfg, AfterPeriodicSweep(cfg, st, t).entries, key, t);
    var b := Spend(cfg, Find(room, key), t).0;
    RoomInOrder(cfg, st, key, t, i, j);
    RoomHolds(cfg, st, key, t, i);
    RoomHolds(cfg, st, key, t, j);
    RoomKey(cfg, st, key, t);
    PutPlaces(room, key, b);
    if StillThere(cfg, st, key, t, i) && StillThere(cfg, st, key, t, j) {
      InOrderKeys(room, st.entries[i], st.entries[j], Put(room, key, b));
    }
  }

  // This entry's key has a bucket after the take that it had before.
  predicate StillThere(cfg: Config, st: State, key: string, t: real, i: nat)
    requires Enabled(cfg) && i < |st.entries|
  {
    if st.entries[i].key == key then KeyIsThere(cfg, st, key, t) else st.entries[i] in Take(cfg, st, key, t).0.entries
  }

  lemma InOrderKeys(room: seq<Entry>, a: Entry, b: Entry, after: seq<Entry>)
    requires InOrder(room, a, b) && |after| >= |room| && forall p :: 0 <= p < |room| ==> after[p].key == room[p].key
    ensures KeysInOrder(after, a.key, b.key)
  {
    var p, q :| 0 <= p < q < |room| && room[p] == a && room[q] == b;
    assert after[p].key == a.key && after[q].key == b.key;
  }

  // A key with a bucket after the due sweep has it in the room made, and a key without has none there.
  lemma RoomKey(cfg: Config, st: State, key: string, t: real)
    requires Enabled(cfg) && DistinctKeys(st.entries)
    ensures var room := MakeRoom(cfg, AfterPeriodicSweep(cfg, st, t).entries, key, t);
      && (Find(room, key).Some? <==> KeyIsThere(cfg, st, key, t))
      && (Find(room, key).None? ==> forall p :: 0 <= p < |room| ==> room[p].key != key)
  {
    hide Idle, FullyRefilled, Find, Sweep, Evict, DistinctKeys, KeyIsThere;
    var swept := AfterPeriodicSweep(cfg, st, t).entries;
    var room := MakeRoom(cfg, swept, key, t);
    AfterDueSweep(cfg, st, key, t);
    FindIsThere(swept, key);
    FindIsThere(room, key);
    SweepKeepsLive(cfg, swept, t);
    EvictKeepsNewest(Sweep(cfg, swept, t), cfg.maxBuckets);
    if Find(swept, key).None? {
      forall p | 0 <= p < |room| ensures room[p].key != key { assert room[p] in swept; }
    }
  }

  lemma RoomHolds(cfg: Config, st: State, key: string, t: real, i: nat)
    requires Enabled(cfg) && DistinctKeys(st.entries) && i < |st.entries|
    ensures StillThere(cfg, st, key, t, i) ==>
      st.entries[i] in MakeRoom(cfg, AfterPeriodicSweep(cfg, st, t).entries, key, t)
  {
    hide Idle, FullyRefilled, Find, Sweep, Evict, Put, Spend, DistinctKeys;
    var e := st.entries[i];
    var swept := AfterPeriodicSweep(cfg, st, t).entries;
    var room := MakeRoom(cfg, swept, key, t);
    RoomIsOld(cfg, st, key, t);
    if StillThere(cfg, st, key, t, i) {
      if e.key == key {
        RoomKey(cfg, st, key, t);
        FindIsMember(room, key);
        SameKey(st.entries, i, Entry(key, Find(room, key).value));
      } else {
        PutOthers(room, key, Spend(cfg, Find(room, key), t).0, e);
      }
    }
  }

  predicate KeysInOrder(entries: seq<Entry>, a: string, b: string) {
    exists p, q :: 0 <= p < q < |entries| && entries[p].key == a && entries[q].key == b
  }
}
